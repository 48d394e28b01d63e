/** The Redis-backed store (`RedisConfigStorage`): one hash per application
    under `cfg:<app>`, whose fields are trimmed record names and whose values
    are the serialized records, plus a version marker `cfg:<app>:ver` holding
    the time of the last write.

    The serializer is taken to round-trip exactly, so a field holds the
    record itself. Fresh identities and the clock are parameters. */
module Storage {
  import opened Wrappers
  import opened Text
  import opened Records

  /** One Redis hash: field to stored record. */
  type Hash = map<string, ConfigRecord>

  /** The part of the Redis keyspace the store touches: the hashes and the
      version markers, each by Redis key. */
  datatype Store = Store(hashes: map<string, Hash>, versions: map<string, int>)

  const KeyPrefix: string := "cfg:"

  /** The Redis key of an application's hash. */
  function AppKey(app: string): (key: string)
    ensures |key| == |KeyPrefix| + |app|
    ensures key[..|KeyPrefix|] == KeyPrefix && key[|KeyPrefix|..] == app
  {
    KeyPrefix + app
  }

  /** The Redis key of an application's version marker. */
  function VersionKey(app: string): (key: string)
    ensures |key| == |AppKey(app)| + |VersionSuffix|
    ensures key[..|AppKey(app)|] == AppKey(app) && key[|AppKey(app)|..] == VersionSuffix
  {
    AppKey(app) + VersionSuffix
  }

  const VersionSuffix: string := ":ver"

  /** The hash of an application; a missing key reads as an empty hash. */
  function HashOf(s: Store, app: string): Hash {
    if AppKey(app) in s.hashes then s.hashes[AppKey(app)] else map[]
  }

  /** `order` is an order `HashGetAll` may return the fields of `h` in:
      each field exactly once. */
  ghost predicate Enumerates(order: seq<string>, h: Hash) {
    && (forall i :: 0 <= i < |order| ==> order[i] in h)
    && (forall f :: f in h ==> f in order)
    && (forall i, j :: 0 <= i < j < |order| ==> order[i] != order[j])
  }

  /** Each identity is carried by at most one field. */
  ghost predicate UniqueIds(h: Hash) {
    forall f, g :: f in h && g in h && h[f].id.Some? && h[f].id == h[g].id ==> f == g
  }

  /** What every upsert keeps true of the whole store: a record sits in its
      own application's hash, under its trimmed name, and no identity is
      filed twice. */
  ghost predicate WellKept(s: Store) {
    forall key :: key in s.hashes ==>
      && UniqueIds(s.hashes[key])
      && (forall f :: f in s.hashes[key] ==>
            AppKey(s.hashes[key][f].applicationName) == key && Trim(s.hashes[key][f].name) == f)
  }

  lemma {:induction false} DistinctLength(order: seq<string>, keys: set<string>)
    requires forall i :: 0 <= i < |order| ==> order[i] in keys
    requires forall i, j :: 0 <= i < j < |order| ==> order[i] != order[j]
    ensures |order| <= |keys|
    decreases |order|
  {
    if 0 < |order| {
      var rest := order[1..];
      assert forall i :: 0 <= i < |rest| ==> rest[i] == order[i + 1];
      DistinctLength(rest, keys - {order[0]});
    }
  }

  ghost predicate StrictlyIncreasing(p: seq<nat>) {
    forall a, b :: 0 <= a < b < |p| ==> p[a] < p[b]
  }

  /** The positions of `order` whose records are active, in ascending order:
      the reference the listing of active records is measured against. */
  ghost function ActivePositions(h: Hash, order: seq<string>): (p: seq<nat>)
    requires forall i :: 0 <= i < |order| ==> order[i] in h
    ensures StrictlyIncreasing(p)
    ensures forall k :: 0 <= k < |p| ==> p[k] < |order| && h[order[p[k]]].isActive
    ensures forall i :: 0 <= i < |order| && h[order[i]].isActive ==> i in p
    decreases |order|
  {
    if |order| == 0 then []
    else
      var n := |order| - 1;
      var p := ActivePositions(h, order[..n]);
      assert forall i :: 0 <= i < n ==> order[..n][i] == order[i];
      if h[order[n]].isActive then p + [n] else p
  }

  /** The active records of `h`, visited in `order`: one element per active
      position, in that order. */
  function ActiveRecords(h: Hash, order: seq<string>): (rs: seq<ConfigRecord>)
    requires forall i :: 0 <= i < |order| ==> order[i] in h
    ensures |rs| == |ActivePositions(h, order)| <= |order|
    ensures forall k :: 0 <= k < |rs| ==> rs[k] == h[order[ActivePositions(h, order)[k]]]
    ensures forall i :: 0 <= i < |rs| ==> rs[i].isActive && rs[i] in h.Values
    ensures forall i :: 0 <= i < |order| && h[order[i]].isActive ==> h[order[i]] in rs
    decreases |order|
  {
    if |order| == 0 then []
    else
      var n := |order| - 1;
      var rest := ActiveRecords(h, order[..n]);
      assert forall i :: 0 <= i < n ==> order[..n][i] == order[i];
      var rs := rest + (if h[order[n]].isActive then [h[order[n]]] else []);
      PositionsLength(ActivePositions(h, order), |order|);
      ListedAtPositions(h, order, rs);
      rs
  }

  /** A listing that holds the record at each active position, in order,
      holds only active records and every one of them. */
  lemma ListedAtPositions(h: Hash, order: seq<string>, rs: seq<ConfigRecord>)
    requires forall i :: 0 <= i < |order| ==> order[i] in h
    requires |rs| == |ActivePositions(h, order)|
    requires forall k :: 0 <= k < |rs| ==> rs[k] == h[order[ActivePositions(h, order)[k]]]
    ensures forall i :: 0 <= i < |rs| ==> rs[i].isActive && rs[i] in h.Values
    ensures forall i :: 0 <= i < |order| && h[order[i]].isActive ==> h[order[i]] in rs
  {
    var p := ActivePositions(h, order);
    forall i | 0 <= i < |order| && h[order[i]].isActive
      ensures h[order[i]] in rs
    {
      var k :| 0 <= k < |p| && p[k] == i;
      assert rs[k] == h[order[i]];
    }
  }

  /** Strictly increasing positions below `n` number at most `n`. */
  lemma {:induction false} PositionsLength(p: seq<nat>, n: nat)
    requires StrictlyIncreasing(p)
    requires forall k :: 0 <= k < |p| ==> p[k] < n
    ensures |p| <= n
    decreases |p|
  {
    if 0 < |p| {
      var q := p[..|p| - 1];
      assert forall k :: 0 <= k < |q| ==> q[k] < p[|p| - 1];
      PositionsLength(q, p[|p| - 1]);
    }
  }

  /** `GetAllAsync(app)`: the active records of the application's hash, in
      the order Redis returns its fields: exactly one element per active
      field, none for an inactive one. */
  function GetAll(s: Store, app: string, order: seq<string>): (rs: seq<ConfigRecord>)
    requires Enumerates(order, HashOf(s, app))
    ensures |rs| == |ActivePositions(HashOf(s, app), order)| <= |HashOf(s, app)|
    ensures forall k :: 0 <= k < |rs| ==> rs[k] == HashOf(s, app)[order[ActivePositions(HashOf(s, app), order)[k]]]
    ensures forall i :: 0 <= i < |rs| ==> rs[i].isActive && rs[i] in HashOf(s, app).Values
    ensures forall f :: f in HashOf(s, app) && HashOf(s, app)[f].isActive ==> HashOf(s, app)[f] in rs
    ensures WellKept(s) ==> forall i :: 0 <= i < |rs| ==> rs[i].applicationName == app
    ensures WellKept(s) ==> forall a, b :: 0 <= a < b < |rs| ==> rs[a] != rs[b]
  {
    var h := HashOf(s, app);
    DistinctLength(order, h.Keys);
    var rs := ActiveRecords(h, order);
    forall f | f in h && h[f].isActive
      ensures h[f] in rs
    {
      var i :| 0 <= i < |order| && order[i] == f;
    }
    assert WellKept(s) ==> forall a, b :: 0 <= a < b < |rs| ==> rs[a] != rs[b] by {
      if WellKept(s) {
        ListedOnce(s, app, order, rs);
      }
    }
    rs
  }

  /** In a well-kept store distinct fields hold distinct records, so a
      listing by distinct positions repeats no record. */
  lemma ListedOnce(s: Store, app: string, order: seq<string>, rs: seq<ConfigRecord>)
    requires WellKept(s)
    requires Enumerates(order, HashOf(s, app))
    requires |rs| == |ActivePositions(HashOf(s, app), order)|
    requires forall k :: 0 <= k < |rs| ==> rs[k] == HashOf(s, app)[order[ActivePositions(HashOf(s, app), order)[k]]]
    ensures forall a, b :: 0 <= a < b < |rs| ==> rs[a] != rs[b]
  {
    var p := ActivePositions(HashOf(s, app), order);
    forall a, b | 0 <= a < b < |rs|
      ensures rs[a] != rs[b]
    {
      assert p[a] < p[b];
      if AppKey(app) in s.hashes {
        assert Trim(rs[a].name) == order[p[a]] && Trim(rs[b].name) == order[p[b]];
      }
    }
  }

  /** The identity an upsert stores: the record's own unless it is missing
      or `Guid.Empty`, else the fresh one. */
  function AssignId(rec: ConfigRecord, freshId: Guid): (id: Guid)
    requires freshId != EmptyGuid
    ensures id != EmptyGuid
    ensures rec.id.Some? && rec.id.value != EmptyGuid ==> id == rec.id.value
    ensures id == freshId || rec.id == Some(id)
  {
    if rec.id.Some? && rec.id.value != EmptyGuid then rec.id.value else freshId
  }

  /** `FirstOrDefault` over the entries: the first field, in `order`, whose
      record carries `id`. */
  function FirstWithId(h: Hash, order: seq<string>, id: Guid): (f: Option<string>)
    requires forall i :: 0 <= i < |order| ==> order[i] in h
    ensures f.Some? ==> f.value in h && h[f.value].id == Some(id)
    ensures f.Some? ==> exists i :: 0 <= i < |order| && order[i] == f.value && forall j :: 0 <= j < i ==> h[order[j]].id != Some(id)
    ensures f.None? ==> forall i :: 0 <= i < |order| ==> h[order[i]].id != Some(id)
    decreases |order|
  {
    if |order| == 0 then None
    else if h[order[0]].id == Some(id) then Some(order[0])
    else
      var r := FirstWithId(h, order[1..], id);
      assert forall i :: 1 <= i < |order| ==> order[i] == order[1..][i - 1];
      assert r.Some? ==> exists i :: 0 <= i < |order| && order[i] == r.value && forall j :: 0 <= j < i ==> h[order[j]].id != Some(id) by {
        if r.Some? {
          var i :| 0 <= i < |order[1..]| && order[1..][i] == r.value && forall j :: 0 <= j < i ==> h[order[1..][j]].id != Some(id);
          assert order[i + 1] == r.value;
          assert forall j :: 0 <= j < i + 1 ==> h[order[j]].id != Some(id) by {
            forall j | 0 <= j < i + 1
              ensures h[order[j]].id != Some(id)
            {
              if 0 < j { assert order[j] == order[1..][j - 1]; }
            }
          }
        }
      }
      r
  }

  /** When identities are unique, the scan finds the one field carrying the
      identity, whatever the enumeration order. */
  lemma FirstWithIdUnique(h: Hash, order: seq<string>, id: Guid, f: string)
    requires Enumerates(order, h) && UniqueIds(h)
    ensures FirstWithId(h, order, id) == Some(f) <==> f in h && h[f].id == Some(id)
  {
    if f in h && h[f].id == Some(id) {
      var i :| 0 <= i < |order| && order[i] == f;
    }
  }

  /** `UpsertAsync(record)`: assign the identity, delete the field of an
      entry with the same identity if the trimmed name moved, write the
      record under its trimmed name, stamp the version. */
  function Upsert(s: Store, rec: ConfigRecord, freshId: Guid, nowMs: int, order: seq<string>): (s': Store)
    requires freshId != EmptyGuid
    requires Enumerates(order, HashOf(s, rec.applicationName))
    // the record, with only its identity replaced, is the new value of the field named by its trimmed name
    ensures var h' := HashOf(s', rec.applicationName);
      && Trim(rec.name) in h'
      && h'[Trim(rec.name)] == rec.(id := h'[Trim(rec.name)].id)
      && h'[Trim(rec.name)].id.Some? && h'[Trim(rec.name)].id.value != EmptyGuid
      && (rec.id.Some? && rec.id.value != EmptyGuid ==> h'[Trim(rec.name)].id == rec.id)
      && (!(rec.id.Some? && rec.id.value != EmptyGuid) ==> h'[Trim(rec.name)].id == Some(freshId))
    // every other surviving field is untouched
    ensures var h, h' := HashOf(s, rec.applicationName), HashOf(s', rec.applicationName);
      forall f :: f in h' && f != Trim(rec.name) ==> f in h && h'[f] == h[f]
    // at most one field disappears, and it carried the assigned identity under another name
    ensures var h, h' := HashOf(s, rec.applicationName), HashOf(s', rec.applicationName);
      var id := AssignId(rec, freshId);
      && (forall f :: f in h && f !in h' ==> f != Trim(rec.name) && h[f].id == Some(id))
      && (forall f, g :: f in h && f !in h' && g in h && g !in h' ==> f == g)
    // a field disappears exactly when the scan finds the identity there first and it is not the new name
    ensures var h, h' := HashOf(s, rec.applicationName), HashOf(s', rec.applicationName);
      forall f :: f in h && f !in h' <==> FirstWithId(h, order, AssignId(rec, freshId)) == Some(f) && f != Trim(rec.name)
    // with unique identities: the old field of the identity is gone and the identity sits only at the new field
    ensures var h, h' := HashOf(s, rec.applicationName), HashOf(s', rec.applicationName);
      var id := AssignId(rec, freshId);
      UniqueIds(h) ==>
        && UniqueIds(h')
        && (forall f :: f in h && h[f].id == Some(id) && f != Trim(rec.name) ==> f !in h')
        && (forall f :: f in h' && h'[f].id == Some(id) ==> f == Trim(rec.name))
    // other applications' hashes are untouched; only this application's version marker moves
    ensures forall key :: key != AppKey(rec.applicationName) ==>
      (key in s'.hashes <==> key in s.hashes) && (key in s.hashes ==> s'.hashes[key] == s.hashes[key])
    ensures s'.versions == s.versions[VersionKey(rec.applicationName) := nowMs]
  {
    var app := rec.applicationName;
    var newField := Trim(rec.name);
    var id := AssignId(rec, freshId);
    var updated := rec.(id := Some(id));
    var h := HashOf(s, app);
    var existing := FirstWithId(h, order, id);
    var kept := if existing.Some? && existing.value != newField then h - {existing.value} else h;
    var h' := kept[newField := updated];
    assert UniqueIds(h) ==> UniqueIds(h') by {
      if UniqueIds(h) {
        forall f | f in h && h[f].id == Some(id)
          ensures existing == Some(f)
        {
          FirstWithIdUnique(h, order, id, f);
        }
      }
    }
    Store(s.hashes[AppKey(app) := h'], s.versions[VersionKey(app) := nowMs])
  }

  /** Distinct applications have distinct hash keys. */
  lemma AppKeyInjective(a: string, b: string)
    requires AppKey(a) == AppKey(b)
    ensures a == b
  {
  }

  /** Distinct applications have distinct version keys. */
  lemma VersionKeyInjective(a: string, b: string)
    requires VersionKey(a) == VersionKey(b)
    ensures a == b
  {
    assert AppKey(a) == VersionKey(a)[..|VersionKey(a)| - |VersionSuffix|];
    AppKeyInjective(a, b);
  }

  /** Every upsert keeps the store well kept. */
  lemma UpsertPreservesWellKept(s: Store, rec: ConfigRecord, freshId: Guid, nowMs: int, order: seq<string>)
    requires WellKept(s)
    requires freshId != EmptyGuid
    requires Enumerates(order, HashOf(s, rec.applicationName))
    ensures WellKept(Upsert(s, rec, freshId, nowMs, order))
  {
    var s' := Upsert(s, rec, freshId, nowMs, order);
    var key := AppKey(rec.applicationName);
    var h, h' := HashOf(s, rec.applicationName), HashOf(s', rec.applicationName);
    assert UniqueIds(h);
    forall f | f in h'
      ensures AppKey(h'[f].applicationName) == key && Trim(h'[f].name) == f
    {
      if f != Trim(rec.name) {
        assert f in h && h'[f] == h[f];
      }
    }
  }

  /** An upserted active record is listed by the next `GetAll` of its
      application, with its identity assigned. */
  lemma UpsertThenGetAll(s: Store, rec: ConfigRecord, freshId: Guid, nowMs: int, order: seq<string>, order': seq<string>)
    requires freshId != EmptyGuid
    requires Enumerates(order, HashOf(s, rec.applicationName))
    requires rec.isActive
    requires Enumerates(order', HashOf(Upsert(s, rec, freshId, nowMs, order), rec.applicationName))
    ensures rec.(id := Some(AssignId(rec, freshId))) in GetAll(Upsert(s, rec, freshId, nowMs, order), rec.applicationName, order')
  {
  }

  /** An upsert is invisible to `GetAll` of every other application. */
  lemma UpsertIsolatesApplications(s: Store, rec: ConfigRecord, freshId: Guid, nowMs: int, order: seq<string>, other: string, otherOrder: seq<string>)
    requires freshId != EmptyGuid
    requires Enumerates(order, HashOf(s, rec.applicationName))
    requires other != rec.applicationName
    requires Enumerates(otherOrder, HashOf(s, other))
    ensures HashOf(Upsert(s, rec, freshId, nowMs, order), other) == HashOf(s, other)
    ensures GetAll(Upsert(s, rec, freshId, nowMs, order), other, otherOrder) == GetAll(s, other, otherOrder)
  {
    if AppKey(other) == AppKey(rec.applicationName) {
      AppKeyInjective(other, rec.applicationName);
    }
  }

  /** With unique identities the enumeration order Redis picks does not
      matter. */
  lemma UpsertOrderIrrelevant(s: Store, rec: ConfigRecord, freshId: Guid, nowMs: int, order1: seq<string>, order2: seq<string>)
    requires freshId != EmptyGuid
    requires UniqueIds(HashOf(s, rec.applicationName))
    requires Enumerates(order1, HashOf(s, rec.applicationName))
    requires Enumerates(order2, HashOf(s, rec.applicationName))
    ensures Upsert(s, rec, freshId, nowMs, order1) == Upsert(s, rec, freshId, nowMs, order2)
  {
    var h := HashOf(s, rec.applicationName);
    var id := AssignId(rec, freshId);
    var e1, e2 := FirstWithId(h, order1, id), FirstWithId(h, order2, id);
    if e1.Some? {
      FirstWithIdUnique(h, order2, id, e1.value);
    }
    if e2.Some? {
      FirstWithIdUnique(h, order1, id, e2.value);
    }
  }

  /** Upserting the same record twice under a fixed identity leaves the hash
      as the first upsert left it; only the version marker moves. */
  lemma UpsertIdempotent(s: Store, rec: ConfigRecord, fresh1: Guid, fresh2: Guid, t1: int, t2: int, order1: seq<string>, order2: seq<string>)
    requires rec.id.Some? && rec.id.value != EmptyGuid
    requires fresh1 != EmptyGuid && fresh2 != EmptyGuid
    requires UniqueIds(HashOf(s, rec.applicationName))
    requires Enumerates(order1, HashOf(s, rec.applicationName))
    requires Enumerates(order2, HashOf(Upsert(s, rec, fresh1, t1, order1), rec.applicationName))
    ensures var s1 := Upsert(s, rec, fresh1, t1, order1);
      var s2 := Upsert(s1, rec, fresh2, t2, order2);
      s2.hashes == s1.hashes && s2.versions == s1.versions[VersionKey(rec.applicationName) := t2]
  {
    var s1 := Upsert(s, rec, fresh1, t1, order1);
    var h1 := HashOf(s1, rec.applicationName);
    var id := rec.id.value;
    var nf := Trim(rec.name);
    assert h1[nf].id == Some(id);
    FirstWithIdUnique(h1, order2, id, nf);
    assert h1[nf := rec] == h1;
    assert s1.hashes[AppKey(rec.applicationName) := h1] == s1.hashes;
  }

  /** A rename through the identity: the old field is gone and exactly one
      field, the new name, carries the identity. */
  lemma UpsertRename(s: Store, rec: ConfigRecord, freshId: Guid, nowMs: int, order: seq<string>, oldField: string)
    requires freshId != EmptyGuid
    requires rec.id.Some? && rec.id.value != EmptyGuid
    requires UniqueIds(HashOf(s, rec.applicationName))
    requires Enumerates(order, HashOf(s, rec.applicationName))
    requires oldField in HashOf(s, rec.applicationName) && HashOf(s, rec.applicationName)[oldField].id == rec.id
    requires oldField != Trim(rec.name)
    ensures var h' := HashOf(Upsert(s, rec, freshId, nowMs, order), rec.applicationName);
      && oldField !in h'
      && Trim(rec.name) in h' && h'[Trim(rec.name)].id == rec.id
      && forall f :: f in h' && h'[f].id == rec.id ==> f == Trim(rec.name)
  {
  }
}
