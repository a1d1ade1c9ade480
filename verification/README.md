# MapDB persistence service — a functional model

This project models the state machine inside openHAB's MapDB persistence
service (`MapDbPersistenceService`). The service keeps one tree map from a key
to the JSON serialization of an item record. It acts on that map through three
operations:

- `store(item, alias)` skips undefined states. It resolves the key as the alias
  when it is not null, else the item's name. It then overwrites that one entry
  with a fresh record, so the last write wins.
- `query(filter)` returns nothing or exactly one record. It throws when the
  stored payload cannot be parsed.
- `getItemInfo()` lists every stored value that deserializes to a valid record.
  It drops values that parse to null or to an invalid record. A value whose
  parse throws aborts the whole listing with that exception.

The model is pure. The map is an immutable `map<string, string>` and `Store`
returns the new map. The clock is a parameter `now`. A thrown exception is the
`Failure` case of a `Result`. The JSON codec (Gson with its state adapter) and
the record's validity check are not part of this model. They are the three
functions of a `JsonCodec` value. Its parse function has three outcomes: a
record, `null`, or a thrown parse exception. The round-trip law "parsing the
serialization of a valid record gives it back" is the predicate
`Codec.RoundTrips`. Lemmas that need it take it as a `requires`.

Modules:

- `Wrappers`: `Option`, for Java's `Optional` and nullable references, and
  `Result`, for a normal return or an escaping exception.
- `Types`: item states (an `UnDef` sentinel and an opaque `Defined` value),
  items and persistence strategies.
- `Codec`: the persisted record `MapDbItem`, the abstract `JsonCodec`,
  `RoundTrips` and `Deserialize`.
- `MapDbService`: the constant results of `getId`, `getLabel` and
  `getDefaultStrategies` (`ServiceId` "mapdb", `ServiceLabel` "MapDB",
  `DefaultStrategies` [restore, change]), `EffectiveKey`, `Store`,
  `StoreItem`, `Query`, `StreamOptional`, `ItemInfo` and the loop `GetItemInfo`.
- `ServiceProperties`: lemmas relating several calls.

The code only replaces a `null` alias by the item's name
(MapDbPersistenceService.java:136). A non-null empty alias is used verbatim as
the key, and `EmptyAliasIsVerbatim` states that.

## Model

| member | source | states |
|---|---|---|
| MapDbService.Store | bundles/org.openhab.persistence.mapdb/src/main/java/org/openhab/persistence/mapdb/internal/MapDbPersistenceService.java:129-148 | An undefined state leaves the map unchanged. Otherwise exactly the effective key (alias, or the name when the alias is null) is added or overwritten, with the serialization of a record named by that key, carrying the item's state and the store time. Every other entry is unchanged. |
| MapDbService.StoreItem | bundles/org.openhab.persistence.mapdb/src/main/java/org/openhab/persistence/mapdb/internal/MapDbPersistenceService.java:124-127 | `store(item)`, which passes `item.getName()` as the alias, writes the same map as `store(item, null)`. A defined state creates an entry under the item's name, and no other key changes. |
| MapDbService.Query | bundles/org.openhab.persistence.mapdb/src/main/java/org/openhab/persistence/mapdb/internal/MapDbPersistenceService.java:150-161 | An absent key gives the empty sequence, not an error. The query throws exactly when the key is present and its payload's parse throws. Otherwise there is at most one result, and a record is returned exactly when the payload deserializes to it. |
| Codec.Deserialize | bundles/org.openhab.persistence.mapdb/src/main/java/org/openhab/persistence/mapdb/internal/MapDbPersistenceService.java:167-175 | A parse exception escapes unchanged. A null parse or a parsed record that is not valid gives an empty optional. Otherwise the result is the parsed record, which is valid. |
| Codec.DeserializeSerialize | bundles/org.openhab.persistence.mapdb/src/main/java/org/openhab/persistence/mapdb/internal/MapDbPersistenceService.java:163-175 | Under the codec law, deserializing the serialization of a valid record gives back that record. |
| MapDbService.StreamOptional | bundles/org.openhab.persistence.mapdb/src/main/java/org/openhab/persistence/mapdb/internal/MapDbPersistenceService.java:181-186 | The stream has at most one element, and it holds exactly the optional's value. |
| MapDbService.ItemInfo | bundles/org.openhab.persistence.mapdb/src/main/java/org/openhab/persistence/mapdb/internal/MapDbPersistenceService.java:118-122 | The listing throws exactly when some stored payload's parse throws. Otherwise a record is listed exactly when some key's stored payload deserializes to it. |
| MapDbService.GetItemInfo | bundles/org.openhab.persistence.mapdb/src/main/java/org/openhab/persistence/mapdb/internal/MapDbPersistenceService.java:119-121 | The values → deserialize → flatMap(streamOptional) → set pipeline, aborted by the first parse exception, computes exactly `ItemInfo`, and every listed record is valid. |
| ServiceProperties.UndefStoreInvisible | bundles/org.openhab.persistence.mapdb/src/main/java/org/openhab/persistence/mapdb/internal/MapDbPersistenceService.java:131-133 | Storing an undefined state changes no query result and no listing. |
| ServiceProperties.EmptyAliasIsVerbatim | bundles/org.openhab.persistence.mapdb/src/main/java/org/openhab/persistence/mapdb/internal/MapDbPersistenceService.java:136-145 | An empty non-null alias is the key: the record goes under "" with name "", and the item's own entry is untouched. |
| ServiceProperties.LastWriteWins | bundles/org.openhab.persistence.mapdb/src/main/java/org/openhab/persistence/mapdb/internal/MapDbPersistenceService.java:145 | Two stores with the same effective key, the second defined, leave the same map as the second store alone. No history is kept. |
| ServiceProperties.StoreFrame | bundles/org.openhab.persistence.mapdb/src/main/java/org/openhab/persistence/mapdb/internal/MapDbPersistenceService.java:145-160 | A store leaves the query result of every other key unchanged. |
| ServiceProperties.StoreThenQuery | bundles/org.openhab.persistence.mapdb/src/main/java/org/openhab/persistence/mapdb/internal/MapDbPersistenceService.java:139-160 | Under the codec law, a query on the effective key right after a defined store returns exactly the stored record (named by the key, not necessarily the item). |
| ServiceProperties.QueryWithinItemInfo | bundles/org.openhab.persistence.mapdb/src/main/java/org/openhab/persistence/mapdb/internal/MapDbPersistenceService.java:118-161 | When the listing succeeds, every query succeeds, and every record a query returns is also listed. |
| ServiceProperties.EmptyItemInfo | bundles/org.openhab.persistence.mapdb/src/main/java/org/openhab/persistence/mapdb/internal/MapDbPersistenceService.java:120-121 | An empty map gives a successful, empty listing. |
| ServiceProperties.InvalidEntryDropped | bundles/org.openhab.persistence.mapdb/src/main/java/org/openhab/persistence/mapdb/internal/MapDbPersistenceService.java:120-121 | An entry whose payload parses to null or to an invalid record is dropped: the listing, success or exception, is that of the other entries. |
| ServiceProperties.ValidEntryListed | bundles/org.openhab.persistence.mapdb/src/main/java/org/openhab/persistence/mapdb/internal/MapDbPersistenceService.java:120-121 | An entry whose payload deserializes to a record adds exactly that record to the listing of the other entries, and the listing fails exactly when theirs does. |
| ServiceProperties.CorruptEntryFailsListing | bundles/org.openhab.persistence.mapdb/src/main/java/org/openhab/persistence/mapdb/internal/MapDbPersistenceService.java:119-175 | One entry whose parse throws makes `getItemInfo` throw whatever the other entries hold, and makes the query on its key throw. |
| ServiceProperties.StoreThenItemInfo | bundles/org.openhab.persistence.mapdb/src/main/java/org/openhab/persistence/mapdb/internal/MapDbPersistenceService.java:118-148 | Under the codec law, a valid store never turns a successful listing into an exception, and a successful listing afterwards contains the stored record. |
| ServiceProperties.UndefAfterDefinedKeepsRecord | bundles/org.openhab.persistence.mapdb/src/main/java/org/openhab/persistence/mapdb/internal/MapDbPersistenceService.java:124-160 | Storing a defined state and then an undefined state of the same item: the query still returns the defined record. |
| ServiceProperties.AliasReplacesName | bundles/org.openhab.persistence.mapdb/src/main/java/org/openhab/persistence/mapdb/internal/MapDbPersistenceService.java:136-160 | With an alias, the record is found under the alias, and the query on the item's own name is as before the store. |

## Left out

- `activate`/`deactivate`: opening the database file, creating its folder and closing it are file-system I/O through a foreign library. The code has no active/inactive guard. If the folder cannot be created (lines 86-90), the map stays null. Then `getItemInfo` (line 120), `query` (line 152) and a `store` of a defined state (line 145) dereference the null map and throw `NullPointerException`. After `deactivate`, `store` puts into the map of a closed database (lines 103, 145) before submitting a commit (line 178). Neither path is modelled: the model covers only the state after a successful activation, where the map always exists.
- Concurrency: calls are modelled as sequential. The source reads the item's state twice, once for the `UnDefType` test (line 131) and once for the stored state (line 139). A concurrent change to an undefined state between the two reads would store that undefined state. The model reads the state once.
- `commit()`: the asynchronous flush on the thread pool is concurrency and disk I/O. It does not change the map, so the model has no step for it.
- Gson, the state type adapter and `MapDbItem.isValid`: not part of this model. They are the abstract `JsonCodec`, and the round-trip law is a precondition (`Codec.RoundTrips`), not a proven fact. Serialization is taken to be total.
- Codec.Deserialize: every exception the parse (or the state adapter inside it) can throw is the one value `JsonSyntaxError`. The exception's type and message are not modelled, nor which of several corrupt entries `getItemInfo` reports.
- `new Date()`: the clock is the `now` parameter.
- Logging.
- `getLabel(locale)`: the locale is ignored by the code, so the model has only the constant `ServiceLabel`.
- A null item name in the query filter: `FilterCriteria.getItemName()` is nullable, and what the database map does with a null key is not part of this model. The filter is modelled as its non-null item name.
- MapDbService.ItemInfo: the result is a set of records compared by value. Whether the Java set collapses equal records depends on `MapDbItem.equals`, which is not part of this model.
- The time-range, ordering and paging fields of the query filter: the code ignores them, and so does the model.
- `IZmActions`: a bare interface of the ZoneMinder binding with no logic, unrelated to the persistence service.
