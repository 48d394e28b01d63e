/** The typed cache (`ConfigurationReader`): two snapshots, `active` and
    `lastGood`, replaced wholesale by each refresh, and a typed lookup that
    falls back from the first to the second.

    One refresh is one atomic transition from the fetch outcome to a new
    snapshot pair; the timer loop is a sequence of such transitions. */
module Reader {
  import opened Wrappers
  import opened Exceptions
  import opened Text
  import opened Records
  import opened Conversion

  /** The shortest refresh period the constructor accepts, in milliseconds. */
  const MinIntervalMs: int := 250

  /** The period of the refresh timer for a requested interval. */
  function EffectiveInterval(requestedMs: int): (ms: int)
    ensures MinIntervalMs <= ms && requestedMs <= ms
    ensures ms == MinIntervalMs || ms == requestedMs
  {
    if requestedMs < MinIntervalMs then MinIntervalMs else requestedMs
  }

  /** A snapshot: records keyed by their case-folded name, the keying of the
      `OrdinalIgnoreCase` dictionary a refresh builds. */
  type Snapshot = map<string, ConfigRecord>

  /** Every entry is an active record filed under its own folded name. */
  ghost predicate WellFormed(snap: Snapshot) {
    forall k :: k in snap ==> snap[k].isActive && FoldCase(snap[k].name) == k
  }

  datatype Cache = Cache(active: Snapshot, lastGood: Snapshot)

  /** The invariant of every cache state a run reaches: both snapshots are
      well formed, and a non-empty `active` is also `lastGood`. */
  ghost predicate Valid(c: Cache) {
    && WellFormed(c.active)
    && WellFormed(c.lastGood)
    && (|c.active| > 0 ==> c.lastGood == c.active)
  }

  /** The state before the first refresh has completed. */
  const Empty: Cache := Cache(map[], map[])

  /** The outcome of one `GetAllAsync` call: the records, or an exception
      (transport or payload error). */
  datatype Fetch = Fetched(records: seq<ConfigRecord>) | FetchFailed

  /** Two active records whose names are equal under `OrdinalIgnoreCase`:
      `ToDictionary` throws on the second of them. */
  ghost predicate HasDuplicateActiveNames(rs: seq<ConfigRecord>) {
    exists i, j :: 0 <= i < j < |rs| && rs[i].isActive && rs[j].isActive && FoldCase(rs[i].name) == FoldCase(rs[j].name)
  }

  ghost predicate NoActiveRecord(rs: seq<ConfigRecord>) {
    forall i :: 0 <= i < |rs| ==> !rs[i].isActive
  }

  /** `snap` holds exactly the active records of `rs`, each under its folded
      name. */
  ghost predicate Mirrors(snap: Snapshot, rs: seq<ConfigRecord>) {
    && WellFormed(snap)
    && (forall k :: k in snap ==> snap[k] in rs)
    && (forall i :: 0 <= i < |rs| && rs[i].isActive ==>
          FoldCase(rs[i].name) in snap && snap[FoldCase(rs[i].name)] == rs[i])
  }

  /** A record list determines the snapshot that mirrors it. */
  lemma MirrorsUnique(m1: Snapshot, m2: Snapshot, rs: seq<ConfigRecord>)
    requires Mirrors(m1, rs) && Mirrors(m2, rs)
    ensures m1 == m2
  {
    forall k | k in m1
      ensures k in m2 && m2[k] == m1[k]
    {
      var i :| 0 <= i < |rs| && rs[i] == m1[k];
    }
    forall k | k in m2
      ensures k in m1
    {
      var i :| 0 <= i < |rs| && rs[i] == m2[k];
    }
  }

  /** A mirroring snapshot is empty exactly when no record is active. */
  lemma MirrorsEmpty(snap: Snapshot, rs: seq<ConfigRecord>)
    requires Mirrors(snap, rs)
    ensures |snap| == 0 <==> NoActiveRecord(rs)
  {
    if |snap| != 0 {
      var k :| k in snap;
      var i :| 0 <= i < |rs| && rs[i] == snap[k];
    }
  }

  lemma DuplicatesOfSnoc(rs: seq<ConfigRecord>)
    requires 0 < |rs|
    ensures var n := |rs| - 1;
      HasDuplicateActiveNames(rs) <==>
        || HasDuplicateActiveNames(rs[..n])
        || (rs[n].isActive && exists i :: 0 <= i < n && rs[i].isActive && FoldCase(rs[i].name) == FoldCase(rs[n].name))
  {
    var n := |rs| - 1;
    var p := rs[..n];
    if HasDuplicateActiveNames(rs) {
      var i, j :| 0 <= i < j < |rs| && rs[i].isActive && rs[j].isActive && FoldCase(rs[i].name) == FoldCase(rs[j].name);
      if j < n {
        assert p[i] == rs[i] && p[j] == rs[j];
      }
    }
    if HasDuplicateActiveNames(p) {
      var i, j :| 0 <= i < j < |p| && p[i].isActive && p[j].isActive && FoldCase(p[i].name) == FoldCase(p[j].name);
      assert rs[i] == p[i] && rs[j] == p[j];
    }
  }

  /** Adding the next record to a mirroring snapshot, as `ToDictionary`
      does: an inactive record is skipped, an active one whose folded name is
      taken makes it throw. */
  lemma MirrorsSnoc(m: Snapshot, rs: seq<ConfigRecord>)
    requires 0 < |rs|
    requires Mirrors(m, rs[..|rs| - 1])
    ensures var last := rs[|rs| - 1];
      && (last.isActive ==> (FoldCase(last.name) in m <==>
            exists i :: 0 <= i < |rs| - 1 && rs[i].isActive && FoldCase(rs[i].name) == FoldCase(last.name)))
      && (!last.isActive ==> Mirrors(m, rs))
      && (last.isActive && FoldCase(last.name) !in m ==> Mirrors(m[FoldCase(last.name) := last], rs))
  {
    var n := |rs| - 1;
    var p := rs[..n];
    var last := rs[n];
    var k := FoldCase(last.name);
    assert forall i :: 0 <= i < n ==> p[i] == rs[i];
    if last.isActive && k in m {
      var i :| 0 <= i < n && p[i] == m[k];
    }
    assert forall x :: x in p ==> x in rs;
    if last.isActive && k !in m {
      var m' := m[k := last];
      forall i | 0 <= i < |rs| && rs[i].isActive
        ensures FoldCase(rs[i].name) in m' && m'[FoldCase(rs[i].name)] == rs[i]
      {
        if i < n {
          assert p[i] == rs[i];
        }
      }
    }
  }

  /** The dictionary one refresh builds from the fetched list: only active
      records, keyed by name under `OrdinalIgnoreCase`; `None` when
      `ToDictionary` throws on a repeated name. */
  function BuildSnapshot(rs: seq<ConfigRecord>): (r: Option<Snapshot>)
    ensures r.None? <==> HasDuplicateActiveNames(rs)
    ensures r.Some? ==> Mirrors(r.value, rs)
    decreases |rs|
  {
    if |rs| == 0 then Some(map[])
    else
      var n := |rs| - 1;
      var last := rs[n];
      DuplicatesOfSnoc(rs);
      match BuildSnapshot(rs[..n])
      case None => None
      case Some(m) =>
        MirrorsSnoc(m, rs);
        if !last.isActive then Some(m)
        else if FoldCase(last.name) in m then None
        else Some(m[FoldCase(last.name) := last])
  }

  /** `RefreshOnce`: on success `active` becomes the new snapshot and
      `lastGood` follows it only when it is non-empty; a fetch error or a
      repeated active name discards the attempt. */
  function Refresh(c: Cache, f: Fetch): (c': Cache)
    ensures f.FetchFailed? ==> c' == c
    ensures f.Fetched? && HasDuplicateActiveNames(f.records) ==> c' == c
    ensures f.Fetched? && !HasDuplicateActiveNames(f.records) ==>
      && Mirrors(c'.active, f.records)
      && (NoActiveRecord(f.records) ==> c'.active == map[] && c'.lastGood == c.lastGood)
      && (!NoActiveRecord(f.records) ==> c'.lastGood == c'.active)
    ensures Valid(c) ==> Valid(c')
  {
    match f
    case FetchFailed => c
    case Fetched(rs) =>
      match BuildSnapshot(rs)
      case None => c
      case Some(dict) =>
        MirrorsEmpty(dict, rs);
        Cache(dict, if |dict| > 0 then dict else c.lastGood)
  }

  /** The refresh loop: one refresh per fetch outcome, in order. */
  function Run(c: Cache, fs: seq<Fetch>): (c': Cache)
    ensures (forall i :: 0 <= i < |fs| ==> fs[i].FetchFailed?) ==> c' == c
    ensures 0 < |fs| && fs[|fs| - 1].Fetched? && !HasDuplicateActiveNames(fs[|fs| - 1].records) ==>
      Mirrors(c'.active, fs[|fs| - 1].records)
    decreases |fs|
  {
    if |fs| == 0 then c else Run(Refresh(c, fs[0]), fs[1..])
  }

  /** Every state a run reaches from a valid state is valid. */
  lemma {:induction false} RunPreservesValid(c: Cache, fs: seq<Fetch>)
    requires Valid(c)
    ensures Valid(Run(c, fs))
    decreases |fs|
  {
    if 0 < |fs| {
      RunPreservesValid(Refresh(c, fs[0]), fs[1..]);
    }
  }

  /** How a dictionary lookup compares keys: `Ordinal` is the default string
      comparer, `OrdinalIgnoreCase` the one the refresh builds with. */
  datatype KeyComparison = Ordinal | OrdinalIgnoreCase

  predicate Matches(name: string, key: string, cmp: KeyComparison) {
    match cmp
    case Ordinal => name == key
    case OrdinalIgnoreCase => EqualsIgnoreCase(name, key)
  }

  /** `TryGetValue` on a snapshot. Under `Ordinal` it models the published
      `ConcurrentDictionary`, a copy keyed by each record's own name. */
  function Find(snap: Snapshot, key: string, cmp: KeyComparison): Option<ConfigRecord> {
    var k := FoldCase(key);
    if k in snap && (cmp.OrdinalIgnoreCase? || snap[k].name == key) then Some(snap[k]) else None
  }

  /** On a well-formed snapshot, a lookup finds exactly the stored record
      whose name matches the key under the comparison. */
  lemma FindMatches(snap: Snapshot, key: string, cmp: KeyComparison, rec: ConfigRecord)
    requires WellFormed(snap)
    ensures Find(snap, key, cmp) == Some(rec) <==> rec in snap.Values && Matches(rec.name, key, cmp)
  {
    if rec in snap.Values && Matches(rec.name, key, cmp) {
      var k :| k in snap && snap[k] == rec;
    }
  }

  /** The lookup of `GetValue`: an active hit in `active`, otherwise an active
      hit in `lastGood`. */
  function Resolve(c: Cache, key: string, cmp: KeyComparison): (r: Option<ConfigRecord>)
    ensures r.Some? ==> r.value.isActive
    ensures r.Some? ==> Find(c.active, key, cmp) == r || Find(c.lastGood, key, cmp) == r
    ensures Find(c.active, key, cmp).Some? && Find(c.active, key, cmp).value.isActive ==> r == Find(c.active, key, cmp)
    ensures r.None? ==> forall snap :: snap in {c.active, c.lastGood} && Find(snap, key, cmp).Some? ==> !Find(snap, key, cmp).value.isActive
  {
    var hit := Find(c.active, key, cmp);
    if hit.Some? && hit.value.isActive then hit
    else
      var fallback := Find(c.lastGood, key, cmp);
      if fallback.Some? && fallback.value.isActive then fallback else None
  }

  /** `GetValue<T>` up to the final `Convert.ChangeType`; `key` is `None` for
      a null reference. */
  function GetValueUsing(c: Cache, key: Option<string>, cmp: KeyComparison, parseDouble: string -> Option<real>): (r: Result<Value, Exception>)
    ensures key.None? ==> r == Err(ArgumentNullException)
    ensures r == Err(KeyNotFoundException) <==> key.Some? && Resolve(c, key.value, cmp).None?
    ensures key.Some? && Resolve(c, key.value, cmp).Some? ==>
      var rec := Resolve(c, key.value, cmp).value;
      r == ConvertValue(rec.typeTag, rec.value, parseDouble)
  {
    match key
    case None => Err(ArgumentNullException)
    case Some(k) =>
      match Resolve(c, k, cmp)
      case Some(rec) => ConvertValue(rec.typeTag, rec.value, parseDouble)
      case None => Err(KeyNotFoundException)
  }

  /** `GetValue` with the case-insensitive lookup the refresh evidently
      intends. */
  function GetValue(c: Cache, key: Option<string>, parseDouble: string -> Option<real>): (r: Result<Value, Exception>)
    ensures key.None? ==> r == Err(ArgumentNullException)
    ensures r == Err(KeyNotFoundException) <==> key.Some? && Resolve(c, key.value, OrdinalIgnoreCase).None?
  {
    GetValueUsing(c, key, OrdinalIgnoreCase, parseDouble)
  }

  /** `GetValue` as written: the published `ConcurrentDictionary` is built
      without a comparer, so keys match ordinally. */
  function GetValueAsWritten(c: Cache, key: Option<string>, parseDouble: string -> Option<real>): (r: Result<Value, Exception>)
    ensures key.None? ==> r == Err(ArgumentNullException)
    ensures r == Err(KeyNotFoundException) <==> key.Some? && Resolve(c, key.value, Ordinal).None?
  {
    GetValueUsing(c, key, Ordinal, parseDouble)
  }

  /** A record of `active` matching the key wins, whatever `lastGood` holds. */
  lemma GetValuePrefersActive(c: Cache, key: string, rec: ConfigRecord, parseDouble: string -> Option<real>)
    requires WellFormed(c.active)
    requires rec in c.active.Values && EqualsIgnoreCase(rec.name, key)
    ensures GetValue(c, Some(key), parseDouble) == ConvertValue(rec.typeTag, rec.value, parseDouble)
  {
    FindMatches(c.active, key, OrdinalIgnoreCase, rec);
  }

  /** With no match in `active`, a matching record of `lastGood` is served. */
  lemma GetValueFallsBack(c: Cache, key: string, rec: ConfigRecord, parseDouble: string -> Option<real>)
    requires WellFormed(c.active) && WellFormed(c.lastGood)
    requires forall r :: r in c.active.Values ==> !EqualsIgnoreCase(r.name, key)
    requires rec in c.lastGood.Values && EqualsIgnoreCase(rec.name, key)
    ensures GetValue(c, Some(key), parseDouble) == ConvertValue(rec.typeTag, rec.value, parseDouble)
  {
    FindMatches(c.lastGood, key, OrdinalIgnoreCase, rec);
    if Find(c.active, key, OrdinalIgnoreCase).Some? {
      FindMatches(c.active, key, OrdinalIgnoreCase, Find(c.active, key, OrdinalIgnoreCase).value);
    }
  }

  /** A key matched by no record of either snapshot is `KeyNotFound`. */
  lemma GetValueMisses(c: Cache, key: string, parseDouble: string -> Option<real>)
    requires WellFormed(c.active) && WellFormed(c.lastGood)
    requires forall r :: r in c.active.Values ==> !EqualsIgnoreCase(r.name, key)
    requires forall r :: r in c.lastGood.Values ==> !EqualsIgnoreCase(r.name, key)
    ensures GetValue(c, Some(key), parseDouble) == Err(KeyNotFoundException)
  {
    if Find(c.active, key, OrdinalIgnoreCase).Some? {
      FindMatches(c.active, key, OrdinalIgnoreCase, Find(c.active, key, OrdinalIgnoreCase).value);
    }
    if Find(c.lastGood, key, OrdinalIgnoreCase).Some? {
      FindMatches(c.lastGood, key, OrdinalIgnoreCase, Find(c.lastGood, key, OrdinalIgnoreCase).value);
    }
  }

  /** After a successful refresh every fetched active record is served under
      its name, in any case. */
  lemma RefreshThenGetValue(c: Cache, rs: seq<ConfigRecord>, i: nat, key: string, parseDouble: string -> Option<real>)
    requires !HasDuplicateActiveNames(rs)
    requires i < |rs| && rs[i].isActive && EqualsIgnoreCase(rs[i].name, key)
    ensures GetValue(Refresh(c, Fetched(rs)), Some(key), parseDouble) == ConvertValue(rs[i].typeTag, rs[i].value, parseDouble)
  {
    var c' := Refresh(c, Fetched(rs));
    assert c'.active[FoldCase(rs[i].name)] == rs[i];
    GetValuePrefersActive(c', key, rs[i], parseDouble);
  }

  /** A refresh that fails, or finds no active record, changes no lookup. */
  lemma DegradedRefreshKeepsReads(c: Cache, f: Fetch, key: string, cmp: KeyComparison)
    requires Valid(c)
    requires f.FetchFailed? || HasDuplicateActiveNames(f.records) || NoActiveRecord(f.records)
    ensures Resolve(Refresh(c, f), key, cmp) == Resolve(c, key, cmp)
  {
  }

  /** Reads stay available through any run of failed or empty refreshes. */
  lemma {:induction false} DegradedRunKeepsReads(c: Cache, fs: seq<Fetch>, key: string, cmp: KeyComparison)
    requires Valid(c)
    requires forall i :: 0 <= i < |fs| ==> fs[i].FetchFailed? || HasDuplicateActiveNames(fs[i].records) || NoActiveRecord(fs[i].records)
    ensures Resolve(Run(c, fs), key, cmp) == Resolve(c, key, cmp)
    decreases |fs|
  {
    if 0 < |fs| {
      DegradedRefreshKeepsReads(c, fs[0], key, cmp);
      assert forall i :: 0 <= i < |fs| - 1 ==> fs[1..][i] == fs[i + 1];
      DegradedRunKeepsReads(Refresh(c, fs[0]), fs[1..], key, cmp);
    }
  }

  /** Once a refresh has seen an active record, the fallback is never empty
      again. */
  lemma {:induction false} RunKeepsFallback(c: Cache, fs: seq<Fetch>)
    requires |c.lastGood| > 0
    ensures |Run(c, fs).lastGood| > 0
    decreases |fs|
  {
    if 0 < |fs| {
      var c' := Refresh(c, fs[0]);
      if fs[0].Fetched? && !HasDuplicateActiveNames(fs[0].records) && !NoActiveRecord(fs[0].records) {
        MirrorsEmpty(c'.active, fs[0].records);
      }
      RunKeepsFallback(c', fs[1..]);
    }
  }

  /** The finding: a record named "Redis" is invisible to the as-written
      lookup of "redis", and served by the case-insensitive one. */
  lemma CaseSensitiveLookupCounterexample(parseDouble: string -> Option<real>)
    ensures var rec := ConfigRecord(None, "Redis", "string", "localhost:6380", true, "SERVICE-A");
      var c := Refresh(Empty, Fetched([rec]));
      && GetValueAsWritten(c, Some("redis"), parseDouble) == Err(KeyNotFoundException)
      && GetValue(c, Some("redis"), parseDouble) == Ok(Str("localhost:6380"))
  {
    var rec := ConfigRecord(None, "Redis", "string", "localhost:6380", true, "SERVICE-A");
    assert !HasDuplicateActiveNames([rec]);
    var c := Refresh(Empty, Fetched([rec]));
    assert FoldCase("redis") == FoldCase("Redis") == "REDIS";
    assert c.active == map["REDIS" := rec];
    assert "Redis" != "redis";
    assert ToLowerInvariant("string") == "string";
  }

  /** The corrected lookup matches keys case-insensitively: any spelling of a
      key reads the same value. */
  lemma GetValueIgnoresCase(c: Cache, key: string, parseDouble: string -> Option<real>)
    ensures GetValue(c, Some(FoldCase(key)), parseDouble) == GetValue(c, Some(key), parseDouble)
  {
    FoldCaseIdempotent(key);
  }

  /** The as-written lookup finds exactly the record whose name is the key,
      as a dictionary keyed by record names with the default comparer does. */
  lemma GetValueAsWrittenIsOrdinal(c: Cache, key: string, rec: ConfigRecord, parseDouble: string -> Option<real>)
    requires WellFormed(c.active)
    requires rec in c.active.Values && rec.name == key
    ensures GetValueAsWritten(c, Some(key), parseDouble) == ConvertValue(rec.typeTag, rec.value, parseDouble)
  {
    FindMatches(c.active, key, Ordinal, rec);
  }

  /** The state the constructor leaves: its arguments checked, the interval
      clamped, both snapshots empty until the first refresh completes. */
  datatype ReaderState = ReaderState(applicationName: string, intervalMs: int, cache: Cache)

  /** The constructor `ConfigurationReader(applicationName, connectionString,
      refreshTimerIntervalInMs)`; `None` stands for a null reference. */
  function Open(applicationName: Option<string>, connectionString: Option<string>, requestedMs: int): (r: Result<ReaderState, Exception>)
    ensures r.Err? <==> applicationName.None? || connectionString.None?
    ensures r.Err? ==> r.error == ArgumentNullException
    ensures r.Ok? ==> && r.value.applicationName == applicationName.value
                      && r.value.intervalMs == EffectiveInterval(requestedMs)
                      && r.value.cache == Empty
                      && Valid(r.value.cache)
  {
    if applicationName.None? || connectionString.None? then Err(ArgumentNullException)
    else Ok(ReaderState(applicationName.value, EffectiveInterval(requestedMs), Empty))
  }

  /** Requesting 50 ms gives the 250 ms floor; 2000 ms is kept. */
  lemma IntervalExamples()
    ensures EffectiveInterval(50) == 250
    ensures EffectiveInterval(2000) == 2000
  {
  }
}
