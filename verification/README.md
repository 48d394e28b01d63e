# Self-refreshing typed configuration: a Dafny model

This project models the core of a small .NET configuration library. The
library has two sequential components.

- **The typed cache** (`ConfigurationReader`) keeps two snapshots of one
  application's configuration: `active` and `lastGood`. A refresh pulls the
  application's records from the store. It keeps the active ones, builds a
  name-keyed dictionary, and publishes it as `active`. It also publishes it
  as `lastGood`, but only when it is non-empty. A failed refresh is
  discarded. `GetValue` looks a key up in `active`, falls back to
  `lastGood`, and coerces the stored (type tag, raw value) pair to a typed
  value.
- **The store** (`RedisConfigStorage`) keeps one Redis hash per
  application, under the key `cfg:<app>`. Each field is a trimmed record
  name and holds the serialized record. A version marker sits under
  `cfg:<app>:ver`. `GetAll` lists an application's active records.
  `Upsert` does four things in order:
  - it assigns an identity;
  - it deletes the old field of an entry with the same identity if the
    trimmed name moved;
  - it writes the record under its trimmed name;
  - it stamps the version marker with the clock.

Both are modelled as pure functions over immutable values:

- a refresh is one transition `Refresh(cache, fetchOutcome)`;
- the timer loop is a fold `Run` over a sequence of fetch outcomes;
- the Redis keyspace is a pair of maps;
- an upsert is one function `Upsert(store, record, freshId, nowMs, order)`.

Modules, leaves first:

- `Wrappers` (`Option`, `Result`) and `Exceptions` (the .NET exceptions
  the library throws).
- `Text`: `char.IsWhiteSpace`, `string.Trim`, the trim `bool.TryParse`
  uses, and ASCII case mapping for `OrdinalIgnoreCase` and
  `ToLowerInvariant`.
- `Numbers`: `int.Parse` under the invariant culture and `int.ToString`.
- `Records`: `ConfigRecord` and `Guid`.
- `Conversion`: `ConvertValue` and `ParseBool`.
- `Reader`: the cache.
- `Storage`: the store.
- `Lifecycle`: the two together.

Inputs the library takes from its environment are parameters:

- `Guid.NewGuid()` is `freshId`. A freshly generated version-4 `Guid` has
  its version bits set, so it is never `Guid.Empty`, and `Upsert` requires
  exactly that of `freshId`.
- `DateTimeOffset.UtcNow` in epoch milliseconds is `nowMs`.
- The order in which `HashGetAllAsync` returns a hash's fields is `order`,
  a sequence that lists every field exactly once.
- The outcome of `GetAllAsync` is a `Fetch`: a record list or a failure.
- `double.Parse` is the function parameter `parseDouble`.

Two behaviours of the code deserve a note:

- **Two active records with the same name, compared case-insensitively.**
  `ToDictionary` throws (ConfigurationReader.cs:52) and the exception is
  swallowed (57-59). So the whole refresh is discarded and both snapshots
  stay as they were. `Reader.BuildSnapshot` returns `None` exactly then.
- **Case-insensitive lookup.** The dictionary is built with
  `StringComparer.OrdinalIgnoreCase` (ConfigurationReader.cs:52), but the
  copy the lookups use compares ordinally. See "Findings".

## Model

| member | source | states |
|---|---|---|
| `Text.TrimByCharacterization` | src/Config.Core/Storage/RedisConfigStorage.cs:39 | trimming is determined by its result: a string made of a dropped prefix, a middle that neither starts nor ends with a dropped character, and a dropped suffix trims to that middle |
| `Text.TrimIdempotent` | src/Config.Core/Storage/RedisConfigStorage.cs:39 | `Trim` of a trimmed name is that name, so a stored field name is already its own trimmed form |
| `Numbers.ParseInt32` | src/Config.Core/ConfigurationReader.cs:80 | once the surrounding number white space and trailing NULs are cut off, `int.Parse` yields the value of a well-formed literal (optional sign, one or more digits) exactly when that value is within the 32-bit range; a well-formed literal out of range is exactly the `OverflowException` case; anything else is `FormatException` |
| `Numbers.Int32ToStringIsLiteral` | src/Config.Core/ConfigurationReader.cs:80 | `int.ToString` writes a well-formed literal denoting its argument |
| `Numbers.ParseInt32Overflows` | src/Config.Core/ConfigurationReader.cs:80 | an integer outside the 32-bit range, written out, is an `OverflowException` |
| `Numbers.ParseInt32RoundTrip` | src/Config.Core/ConfigurationReader.cs:80 | every 32-bit integer written by `int.ToString`, with any leading and trailing number white space, parses back to itself |
| `Conversion.ParseBool` | src/Config.Core/ConfigurationReader.cs:87-93 | `true` exactly for "true" in any case (after trimming white space and NUL) or the literal "1"; `false` exactly for "false" in any case or "0"; otherwise `FormatException` |
| `Conversion.ParseBoolRoundTrip` | src/Config.Core/ConfigurationReader.cs:87-93 | `ParseBool` reads back `bool.ToString()` ("True"/"False") and the digit literals "1"/"0" |
| `Conversion.ParseBoolIgnoresCase` | src/Config.Core/ConfigurationReader.cs:89 | changing the case of the argument never changes `ParseBool`'s outcome |
| `Conversion.ConvertValue` | src/Config.Core/ConfigurationReader.cs:77-84 | `NotSupportedException` exactly for a lower-cased tag outside string/int/integer/double/bool/boolean; "string" returns the raw value unchanged; "int"/"integer" give the `int.Parse` result or its exception; "bool"/"boolean" give the `ParseBool` result or its exception; "double" gives the parsed double, or `FormatException` when it does not parse; a double comes only from the "double" tag |
| `Conversion.ConvertValueIgnoresTagCase` | src/Config.Core/ConfigurationReader.cs:77 | the type tag is matched regardless of its case |
| `Conversion.ConvertValueIntRoundTrip` | src/Config.Core/ConfigurationReader.cs:80 | under an integer tag, `int.ToString(n)` converts back to `n` for every 32-bit `n` |
| `Conversion.ConvertValueIntOverflow` | src/Config.Core/ConfigurationReader.cs:80 | under an integer tag, every integer outside the 32-bit range, written out, is an `OverflowException` |
| `Conversion.ConvertValueBoolRoundTrip` | src/Config.Core/ConfigurationReader.cs:82 | under a boolean tag, `bool.ToString(b)` converts back to `b` |
| `Conversion.ConvertBoolExamples` | src/Config.Core/ConfigurationReader.cs:90-91 | "1" under "bool" is `true` and "0" under "bool" is `false` |
| `Conversion.ConvertIntExamples` | src/Config.Core/ConfigurationReader.cs:80 | "42" under "int" is 42 and "x" under "int" is a `FormatException` |
| `Conversion.ConvertUnsupportedExample` | src/Config.Core/ConfigurationReader.cs:83 | any value under the tag "array" is a `NotSupportedException` |
| `Reader.EffectiveInterval` | src/Config.Core/ConfigurationReader.cs:25 | the timer period is at least 250 ms and at least the requested interval, and is one of the two: the maximum |
| `Reader.IntervalExamples` | src/Config.Core/ConfigurationReader.cs:25 | a requested 50 ms gives 250 ms; 2000 ms stays 2000 ms |
| `Reader.Open` | src/Config.Core/ConfigurationReader.cs:21-26 | a null application name or connection string throws `ArgumentNullException`; otherwise the reader keeps the name, the clamped interval and two empty snapshots |
| `Reader.BuildSnapshot` | src/Config.Core/ConfigurationReader.cs:50-52 | the dictionary fails to build exactly when two active records have names equal under `OrdinalIgnoreCase`; otherwise it holds exactly the active records, each under its case-folded name |
| `Reader.MirrorsUnique` | src/Config.Core/ConfigurationReader.cs:50-52 | the fetched list determines the snapshot: two snapshots holding exactly its active records are equal |
| `Reader.MirrorsEmpty` | src/Config.Core/ConfigurationReader.cs:55 | the new dictionary is empty exactly when no fetched record is active |
| `Reader.Refresh` | src/Config.Core/ConfigurationReader.cs:45-60 | a fetch error or a duplicate active name leaves both snapshots exactly as before; a success makes `active` exactly the fetched active records; `lastGood` follows it when some record is active, and is unchanged (with `active` empty) when none is; every refresh keeps the cache invariant (only active records, filed under their own names; a non-empty `active` is `lastGood`) |
| `Reader.Run` | src/Config.Core/ConfigurationReader.cs:29-43 | the refresh loop: a run of failed fetches leaves the cache as it was; when the last fetch succeeded without a duplicate active name, `active` holds exactly its active records |
| `Reader.RunPreservesValid` | src/Config.Core/ConfigurationReader.cs:29-43 | every state the refresh loop reaches from a valid state is valid |
| `Reader.DegradedRefreshKeepsReads` | src/Config.Core/ConfigurationReader.cs:55-59 | on a valid cache, a refresh that fails or finds no active record changes the outcome of no lookup |
| `Reader.DegradedRunKeepsReads` | src/Config.Core/ConfigurationReader.cs:36-39 | any number of such refreshes in a row changes the outcome of no lookup |
| `Reader.RunKeepsFallback` | src/Config.Core/ConfigurationReader.cs:55 | once `lastGood` is non-empty, no later refresh empties it |
| `Reader.FindMatches` | src/Config.Core/ConfigurationReader.cs:66 | on a well-formed snapshot, `TryGetValue` finds exactly the stored record whose name matches the key: under `Ordinal` the same name, under `OrdinalIgnoreCase` a name equal ignoring case |
| `Reader.Resolve` | src/Config.Core/ConfigurationReader.cs:66-72 | a found record is active and comes from `active` or `lastGood`; an active hit in `active` wins; nothing is found only when neither snapshot has an active hit |
| `Reader.GetValueUsing` | src/Config.Core/ConfigurationReader.cs:62-73 | a null key throws `ArgumentNullException`; `KeyNotFoundException` exactly when the lookup finds nothing; otherwise the found record's tag and value are converted |
| `Reader.GetValue` | src/Config.Core/ConfigurationReader.cs:62-73 | the corrected read: a null key throws `ArgumentNullException`; `KeyNotFoundException` exactly when neither snapshot has an active record whose name matches the key ignoring case |
| `Reader.GetValueAsWritten` | src/Config.Core/ConfigurationReader.cs:66-72 | the read as written: `KeyNotFoundException` exactly when neither snapshot has an active record whose name is the key under ordinal comparison |
| `Reader.GetValuePrefersActive` | src/Config.Core/ConfigurationReader.cs:66-67 | a record of `active` matching the key is served, whatever `lastGood` holds |
| `Reader.GetValueFallsBack` | src/Config.Core/ConfigurationReader.cs:69-70 | when no record of `active` matches the key, a matching record of `lastGood` is served |
| `Reader.GetValueMisses` | src/Config.Core/ConfigurationReader.cs:72 | a key matched by no record of either snapshot is `KeyNotFoundException` |
| `Reader.RefreshThenGetValue` | src/Config.Core/ConfigurationReader.cs:49-54 | after a successful refresh, every fetched active record is served under its name, in any case |
| `Reader.GetValueIgnoresCase` | src/Config.Core/ConfigurationReader.cs:52 | the corrected read gives the same outcome for every spelling of a key that differs only in case |
| `Reader.GetValueAsWrittenIsOrdinal` | src/Config.Core/ConfigurationReader.cs:50 | the as-written read serves the record whose name is exactly the key, as a dictionary keyed by record names with the default comparer does |
| `Reader.CaseSensitiveLookupCounterexample` | src/Config.Core/ConfigurationReader.cs:50-52 | after a refresh that fetched one active record named "Redis", the as-written read of "redis" is `KeyNotFoundException` and the corrected read serves its value |
| `Storage.AppKey` | src/Config.Core/Storage/RedisConfigStorage.cs:19 | an application's hash key is the prefix `cfg:` followed by the application name |
| `Storage.AppKeyInjective` | src/Config.Core/Storage/RedisConfigStorage.cs:19 | distinct applications have distinct hash keys |
| `Storage.VersionKey` | src/Config.Core/Storage/RedisConfigStorage.cs:70 | an application's version key is its hash key followed by `:ver` |
| `Storage.VersionKeyInjective` | src/Config.Core/Storage/RedisConfigStorage.cs:70 | distinct applications have distinct version keys |
| `Storage.ActiveRecords` | src/Config.Core/Storage/RedisConfigStorage.cs:25-33 | the loop over the entries keeps exactly the active records: one element per active entry, in enumeration order (the k-th element is the record at the k-th active position), none for an inactive one |
| `Storage.GetAll` | src/Config.Core/Storage/RedisConfigStorage.cs:21-34 | the result is exactly the application's active records, one per active field, in the order Redis returns the fields; in a well-kept store every listed record belongs to the requested application and no record is listed twice |
| `Storage.AssignId` | src/Config.Core/Storage/RedisConfigStorage.cs:41 | the stored identity is never `Guid.Empty`: the record's own identity when it has a non-empty one, otherwise the fresh one |
| `Storage.FirstWithId` | src/Config.Core/Storage/RedisConfigStorage.cs:49-54 | the scan returns the first field, in enumeration order, whose record carries the identity, or nothing when no field does |
| `Storage.FirstWithIdUnique` | src/Config.Core/Storage/RedisConfigStorage.cs:49-54 | with unique identities the scan finds exactly the one field carrying the identity |
| `Storage.Upsert` | src/Config.Core/Storage/RedisConfigStorage.cs:36-71 | the record, with only its identity replaced, is the value of the field named by its trimmed name (last writer wins); a non-empty supplied identity is kept, otherwise the fresh one is used; other surviving fields are untouched; a field disappears exactly when it is the first field, in enumeration order, carrying the identity and is not the new name, so nothing disappears when the identity already sits at the new name; with unique identities they stay unique, the old field is gone and the identity sits only at the new field; other applications' hashes are untouched; only this application's version marker changes, to the clock value |
| `Storage.UpsertPreservesWellKept` | src/Config.Core/Storage/RedisConfigStorage.cs:38-39 | every upsert keeps each record in its own application's hash, under its trimmed name, with no identity filed twice |
| `Storage.UpsertThenGetAll` | src/Config.Core/Storage/RedisConfigStorage.cs:41-43 | an upserted active record, with its assigned identity, is listed by the next `GetAll` of its application |
| `Storage.UpsertIsolatesApplications` | src/Config.Core/Storage/RedisConfigStorage.cs:38 | an upsert changes neither the hash nor the `GetAll` result of any other application |
| `Storage.UpsertOrderIrrelevant` | src/Config.Core/Storage/RedisConfigStorage.cs:47-54 | with unique identities, the order in which Redis returns the fields does not change the upsert's result |
| `Storage.UpsertIdempotent` | src/Config.Core/Storage/RedisConfigStorage.cs:41-70 | in a hash with unique identities, upserting the same record twice under a fixed non-empty identity leaves the hashes as after one upsert; only the version marker moves |
| `Storage.UpsertRename` | src/Config.Core/Storage/RedisConfigStorage.cs:56-68 | in a hash with unique identities, upserting an existing identity under a new trimmed name removes the old field and leaves exactly one field, the new name, carrying the identity |
| `Lifecycle.UpsertKeepsNamesDistinct` | src/Config.Core/ConfigurationReader.cs:50-52 | when no two active records the upsert leaves in place, and no such record and the written one, have names equal ignoring case, the next `GetAll` has no duplicate active name, so the next refresh builds its dictionary |
| `Lifecycle.UpsertRefreshGetValue` | src/Config.Core/ConfigurationReader.cs:49-67 | after an upsert of an active record, when no other active record of the application left in place has a name equal to it ignoring case (nor to each other), a refresh from the application's `GetAll` serves the record's typed value under its name |

## Left out

- Redis I/O is not modelled: connecting, `HashGetAllAsync`, `HashSetAsync`,
  `HashDeleteAsync` and `StringSetAsync`. The keyspace is a pair of maps.
  A transport error during a refresh is the `FetchFailed` outcome.
  Transport errors during an upsert are not modelled.
- The hash keys and the version keys live in one Redis keyspace, so the
  version key of application `a` (`cfg:a:ver`) is the hash key of
  application `a:ver`. The model keeps them in two maps and does not model
  that collision.
- JSON serialization is taken to round-trip exactly. Malformed payloads,
  null entries and null names are not modelled. In a refresh, a malformed
  payload, a null entry or a null name on an active record would surface as
  a failed fetch; a null name on an inactive record is filtered out
  (ConfigurationReader.cs:51) before the dictionary is built.
- The `PeriodicTimer` loop, cancellation, async/await, `DisposeAsync` and
  the reference swap of the snapshot fields are not modelled. One refresh
  is one atomic transition and the loop is `Reader.Run`. Concurrent
  upserts and their races are not modelled.
- The constructor starts the first refresh in the background.
  `Reader.Open` returns the state before that refresh. The refresh itself
  is the first step of a `Reader.Run`.
- `Convert.ChangeType` to the caller's type `T` is not modelled, and
  neither is the conversion error it can raise. `GetValue` returns the
  boxed value as a tagged union.
- `double.Parse` is the parameter `parseDouble`, and a real number stands
  for the double. `None` stands for `FormatException`.
- Case mapping covers ASCII letters only. This applies to both
  `OrdinalIgnoreCase` and `ToLowerInvariant`. Non-ASCII letters compare
  as distinct characters.
- `int.Parse` is modelled as optional white space (U+0009 to U+000D and
  U+0020), an optional leading sign, ASCII digits, optional white space,
  trailing NUL characters, and the 32-bit range check. Cultures other than
  the invariant one are out of scope.
- Characters are Unicode scalar values, not UTF-16 code units.
- `ActiveValues` is a projection of `active` to raw values and is not
  modelled.
- The administrative HTTP endpoints and the sample console service are not
  part of this model. They only call `GetAll` and `Upsert`.

## Findings

| source | as written | input that shows it | evidently intended | confidence | as-written member | corrected member |
|---|---|---|---|---|---|---|
| src/Config.Core/ConfigurationReader.cs:50-52 | the `OrdinalIgnoreCase` dictionary is copied into `new ConcurrentDictionary<string, ConfigRecord>(IEnumerable)`, which uses the default ordinal comparer, so `GetValue` matches keys case-sensitively (duplicates are still rejected case-insensitively) | the store holds one active record named "Redis"; after a refresh, `GetValue("redis")` throws `KeyNotFoundException` | keys match case-insensitively, as the `StringComparer.OrdinalIgnoreCase` passed to `ToDictionary` at line 52 does | medium (not executed) | `Reader.GetValueAsWritten`, `Reader.CaseSensitiveLookupCounterexample` | `Reader.GetValue`, `Reader.GetValueIgnoresCase` |
