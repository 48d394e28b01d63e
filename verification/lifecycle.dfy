/** The two components together: a writer upserts into the store, the
    cache's next refresh fetches the application's records, and a read
    serves the written value. */
module Lifecycle {
  import opened Wrappers
  import opened Exceptions
  import opened Text
  import opened Records
  import opened Conversion
  import opened Reader
  import opened Storage

  /** A field of `h` that an upsert of a record with trimmed name `newField`
      and identity `id` leaves in place: neither the field it writes nor the
      field the scan finds for the identity. */
  ghost predicate Untouched(h: Hash, order: seq<string>, id: Guid, newField: string, f: string)
    requires forall i :: 0 <= i < |order| ==> order[i] in h
  {
    f in h && f != newField && FirstWithId(h, order, id) != Some(f)
  }

  /** No two active records left in place, and no active record left in
      place and the written one, have names equal ignoring case. */
  ghost predicate NoClashAfterUpsert(h: Hash, order: seq<string>, rec: ConfigRecord, id: Guid)
    requires forall i :: 0 <= i < |order| ==> order[i] in h
  {
    && (forall f :: Untouched(h, order, id, Trim(rec.name), f) && h[f].isActive ==>
          FoldCase(h[f].name) != FoldCase(rec.name))
    && (forall f, g ::
          (Untouched(h, order, id, Trim(rec.name), f) && Untouched(h, order, id, Trim(rec.name), g)
           && f != g && h[f].isActive && h[g].isActive)
          ==> FoldCase(h[f].name) != FoldCase(h[g].name))
  }

  /** A field other than the written one that survives an upsert was left
      in place, with its record unchanged. */
  lemma LeftInPlace(s: Store, rec: ConfigRecord, freshId: Guid, nowMs: int, order: seq<string>, f: string)
    requires freshId != EmptyGuid
    requires Enumerates(order, HashOf(s, rec.applicationName))
    requires f in HashOf(Upsert(s, rec, freshId, nowMs, order), rec.applicationName) && f != Trim(rec.name)
    ensures Untouched(HashOf(s, rec.applicationName), order, AssignId(rec, freshId), Trim(rec.name), f)
    ensures HashOf(Upsert(s, rec, freshId, nowMs, order), rec.applicationName)[f] == HashOf(s, rec.applicationName)[f]
  {
  }

  /** When the store has no case-insensitive name clash among the records an
      upsert leaves active, the next `GetAll` has no duplicate active name
      either, so the next refresh builds its dictionary. */
  lemma UpsertKeepsNamesDistinct(
    s: Store, rec: ConfigRecord, freshId: Guid, nowMs: int, order: seq<string>, fetchOrder: seq<string>)
    requires freshId != EmptyGuid
    requires Enumerates(order, HashOf(s, rec.applicationName))
    requires NoClashAfterUpsert(HashOf(s, rec.applicationName), order, rec, AssignId(rec, freshId))
    requires Enumerates(fetchOrder, HashOf(Upsert(s, rec, freshId, nowMs, order), rec.applicationName))
    ensures !HasDuplicateActiveNames(GetAll(Upsert(s, rec, freshId, nowMs, order), rec.applicationName, fetchOrder))
  {
    var app := rec.applicationName;
    var s' := Upsert(s, rec, freshId, nowMs, order);
    var h, h' := HashOf(s, app), HashOf(s', app);
    var id := AssignId(rec, freshId);
    var nf := Trim(rec.name);
    var rs := GetAll(s', app, fetchOrder);
    var p := ActivePositions(h', fetchOrder);
    if HasDuplicateActiveNames(rs) {
      var a, b :| 0 <= a < b < |rs| && rs[a].isActive && rs[b].isActive && FoldCase(rs[a].name) == FoldCase(rs[b].name);
      var fa, fb := fetchOrder[p[a]], fetchOrder[p[b]];
      assert p[a] < p[b];
      assert fa != fb;
      assert rs[a] == h'[fa] && rs[b] == h'[fb];
      assert h'[nf].name == rec.name;
      if fa != nf {
        LeftInPlace(s, rec, freshId, nowMs, order, fa);
      }
      if fb != nf {
        LeftInPlace(s, rec, freshId, nowMs, order, fb);
      }
      assert false;
    }
  }

  /** A write is observed by the cache on its next successful refresh: after
      `Upsert` of an active record, a refresh from `GetAll` of that
      application serves the record's typed value under its name. */
  lemma UpsertRefreshGetValue(
    s: Store, rec: ConfigRecord, freshId: Guid, nowMs: int, order: seq<string>,
    c: Cache, fetchOrder: seq<string>, parseDouble: string -> Option<real>)
    requires freshId != EmptyGuid
    requires Enumerates(order, HashOf(s, rec.applicationName))
    requires rec.isActive
    requires Enumerates(fetchOrder, HashOf(Upsert(s, rec, freshId, nowMs, order), rec.applicationName))
    requires NoClashAfterUpsert(HashOf(s, rec.applicationName), order, rec, AssignId(rec, freshId))
    ensures var rs := GetAll(Upsert(s, rec, freshId, nowMs, order), rec.applicationName, fetchOrder);
      GetValue(Refresh(c, Fetched(rs)), Some(rec.name), parseDouble) == ConvertValue(rec.typeTag, rec.value, parseDouble)
  {
    var s' := Upsert(s, rec, freshId, nowMs, order);
    var rs := GetAll(s', rec.applicationName, fetchOrder);
    var stored := rec.(id := Some(AssignId(rec, freshId)));
    UpsertThenGetAll(s, rec, freshId, nowMs, order, fetchOrder);
    var i :| 0 <= i < |rs| && rs[i] == stored;
    UpsertKeepsNamesDistinct(s, rec, freshId, nowMs, order, fetchOrder);
    RefreshThenGetValue(c, rs, i, rec.name, parseDouble);
  }
}
