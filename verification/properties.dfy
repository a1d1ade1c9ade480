/**
 Properties relating several calls of the service: the frame and
 last-write-wins laws of `store`, the store/query round trip under the codec
 law, and how `getItemInfo` treats valid and invalid entries.
 */
module ServiceProperties {
  import opened Wrappers
  import opened Types
  import opened Codec
  import opened MapDbService

  /** Storing an undefined state is invisible to every later query and listing. */
  lemma UndefStoreInvisible(c: JsonCodec, m: map<string, string>, item: Item, alias: Option<string>,
                            now: int, key: string)
    requires item.state.UnDef?
    ensures Query(c, Store(c, m, item, alias, now), key) == Query(c, m, key)
    ensures ItemInfo(c, Store(c, m, item, alias, now)) == ItemInfo(c, m)
  {
  }

  /** A non-null empty alias is a key of its own: the record goes under "" and is named "". */
  lemma EmptyAliasIsVerbatim(c: JsonCodec, m: map<string, string>, item: Item, now: int)
    requires item.state.Defined?
    ensures var m' := Store(c, m, item, Some(""), now);
      "" in m' && m'[""] == c.toJson(MapDbItem("", item.state, now))
    ensures item.name != "" && item.name in m ==>
      Store(c, m, item, Some(""), now)[item.name] == m[item.name]
  {
  }

  /** Two stores to the same effective key: only the second one is left. */
  lemma LastWriteWins(c: JsonCodec, m: map<string, string>, first: Item, firstAlias: Option<string>,
                      second: Item, secondAlias: Option<string>, t1: int, t2: int)
    requires EffectiveKey(first, firstAlias) == EffectiveKey(second, secondAlias)
    requires second.state.Defined?
    ensures Store(c, Store(c, m, first, firstAlias, t1), second, secondAlias, t2)
         == Store(c, m, second, secondAlias, t2)
  {
  }

  /** A store leaves every query on another key as it was. */
  lemma StoreFrame(c: JsonCodec, m: map<string, string>, item: Item, alias: Option<string>,
                   now: int, key: string)
    requires key != EffectiveKey(item, alias)
    ensures Query(c, Store(c, m, item, alias, now), key) == Query(c, m, key)
  {
  }

  /** Round trip: under the codec law a stored valid record is exactly what a query on its key returns. */
  lemma StoreThenQuery(c: JsonCodec, m: map<string, string>, item: Item, alias: Option<string>, now: int)
    requires RoundTrips(c)
    requires item.state.Defined?
    requires c.isValid(MapDbItem(EffectiveKey(item, alias), item.state, now))
    ensures Query(c, Store(c, m, item, alias, now), EffectiveKey(item, alias))
         == Success([MapDbItem(EffectiveKey(item, alias), item.state, now)])
  {
  }

  /**
   A listing that succeeds means no query throws, and every record a query
   returns is also listed.
   */
  lemma QueryWithinItemInfo(c: JsonCodec, m: map<string, string>, key: string)
    requires ItemInfo(c, m).Success?
    ensures Query(c, m, key).Success?
    ensures forall r :: r in Query(c, m, key).value ==> r in ItemInfo(c, m).value
  {
  }

  /** An empty store lists no items. */
  lemma EmptyItemInfo(c: JsonCodec)
    ensures ItemInfo(c, map[]) == Success({})
  {
    var empty: map<string, string> := map[];
    assert ItemInfo(c, empty).Success?;
    assert ItemInfo(c, empty).value == {};
  }

  /**
   An entry whose payload parses to null or to an invalid record is dropped:
   the listing is that of the other entries, success or exception alike.
   */
  lemma InvalidEntryDropped(c: JsonCodec, m: map<string, string>, key: string, json: string)
    requires Deserialize(c, json) == Success(None)
    ensures ItemInfo(c, m[key := json]) == ItemInfo(c, m - {key})
  {
    var m' := m[key := json];
    var rest := m - {key};
    if exists k :: k in rest && Deserialize(c, rest[k]).Failure? {
      var k :| k in rest && Deserialize(c, rest[k]).Failure?;
      assert k in m' && m'[k] == rest[k];
    } else {
      forall k | k in m'
        ensures Deserialize(c, m'[k]).Success?
      {
        if k != key {
          assert k in rest;
        }
      }
      forall r | r in ItemInfo(c, m').value
        ensures r in ItemInfo(c, rest).value
      {
        var k :| k in m' && Deserialize(c, m'[k]) == Success(Some(r));
        assert k != key;
        assert k in rest && rest[k] == m'[k];
      }
      forall r | r in ItemInfo(c, rest).value
        ensures r in ItemInfo(c, m').value
      {
        var k :| k in rest && Deserialize(c, rest[k]) == Success(Some(r));
        assert k in m' && m'[k] == rest[k];
      }
      assert ItemInfo(c, m').value == ItemInfo(c, rest).value;
    }
  }

  /**
   An entry whose payload deserializes to `r` adds exactly `r` to the listing
   of the other entries, and fails it exactly when they fail.
   */
  lemma ValidEntryListed(c: JsonCodec, m: map<string, string>, key: string, json: string, r: MapDbItem)
    requires Deserialize(c, json) == Success(Some(r))
    ensures ItemInfo(c, m[key := json]).Success? <==> ItemInfo(c, m - {key}).Success?
    ensures ItemInfo(c, m - {key}).Success? ==>
      ItemInfo(c, m[key := json]).value == ItemInfo(c, m - {key}).value + {r}
  {
    var m' := m[key := json];
    var rest := m - {key};
    assert Deserialize(c, m'[key]) == Success(Some(r));
    if exists k :: k in rest && Deserialize(c, rest[k]).Failure? {
      var k :| k in rest && Deserialize(c, rest[k]).Failure?;
      assert k in m' && m'[k] == rest[k];
    } else {
      forall k | k in m'
        ensures Deserialize(c, m'[k]).Success?
      {
        if k != key {
          assert k in rest;
        }
      }
      forall x | x in ItemInfo(c, m').value
        ensures x in ItemInfo(c, rest).value + {r}
      {
        var k :| k in m' && Deserialize(c, m'[k]) == Success(Some(x));
        if k != key {
          assert k in rest && rest[k] == m'[k];
        }
      }
      forall x | x in ItemInfo(c, rest).value
        ensures x in ItemInfo(c, m').value
      {
        var k :| k in rest && Deserialize(c, rest[k]) == Success(Some(x));
        assert k in m' && m'[k] == rest[k];
      }
    }
  }

  /**
   One entry whose parse throws makes the whole listing throw, whatever the
   other entries hold.
   */
  lemma CorruptEntryFailsListing(c: JsonCodec, m: map<string, string>, key: string, json: string)
    requires Deserialize(c, json).Failure?
    ensures ItemInfo(c, m[key := json]).Failure?
    ensures Query(c, m[key := json], key).Failure?
  {
  }

  /**
   After a valid store, the stored record is listed whenever the listing
   succeeds, and a store never turns a successful listing into an exception.
   */
  lemma StoreThenItemInfo(c: JsonCodec, m: map<string, string>, item: Item, alias: Option<string>, now: int)
    requires RoundTrips(c)
    requires item.state.Defined?
    requires c.isValid(MapDbItem(EffectiveKey(item, alias), item.state, now))
    ensures ItemInfo(c, m).Success? ==> ItemInfo(c, Store(c, m, item, alias, now)).Success?
    ensures ItemInfo(c, Store(c, m, item, alias, now)).Success? ==>
      MapDbItem(EffectiveKey(item, alias), item.state, now) in ItemInfo(c, Store(c, m, item, alias, now)).value
  {
  }

  /**
   A defined store followed by an undefined store of the same item: the query
   still returns the defined record, because the undefined write was skipped.
   */
  lemma UndefAfterDefinedKeepsRecord(c: JsonCodec, m: map<string, string>, name: string, value: string,
                                     kind: UnDefKind, t1: int, t2: int)
    requires RoundTrips(c)
    requires c.isValid(MapDbItem(name, Defined(value), t1))
    ensures var m1 := StoreItem(c, m, Item(name, Defined(value)), t1);
      var m2 := StoreItem(c, m1, Item(name, UnDef(kind)), t2);
      Query(c, m2, name) == Success([MapDbItem(name, Defined(value), t1)])
  {
  }

  /** With an alias, the record is found under the alias and the item's own name stays as it was. */
  lemma AliasReplacesName(c: JsonCodec, m: map<string, string>, item: Item, alias: string, now: int)
    requires RoundTrips(c)
    requires item.state.Defined?
    requires alias != item.name
    requires c.isValid(MapDbItem(alias, item.state, now))
    ensures Query(c, Store(c, m, item, Some(alias), now), alias) == Success([MapDbItem(alias, item.state, now)])
    ensures Query(c, Store(c, m, item, Some(alias), now), item.name) == Query(c, m, item.name)
  {
  }
}
