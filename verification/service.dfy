/**
 The MapDB persistence service as a pure state machine. The service's only state
 is the database's tree map from key to serialized record, here an immutable
 `map<string, string>`; each operation takes it and, for `store`, returns the
 new one. The clock is the `now` parameter; the asynchronous commit does not
 change the map and so does not appear.
 */
module MapDbService {
  import opened Wrappers
  import opened Types
  import opened Codec

  const ServiceId: string := "mapdb"
  const ServiceLabel: string := "MapDB"

  /** The strategies the service declares to the host: restore on startup, persist on change. */
  const DefaultStrategies: seq<Strategy> := [Restore, Change]

  /**
   The key a store writes (MapDbPersistenceService.java:136): the alias when
   it is not null, even an empty one, else the item's name.
   */
  function EffectiveKey(item: Item, alias: Option<string>): (key: string)
  {
    match alias
    case Some(a) => a
    case None => item.name
  }

  /**
   `store(item, alias)`: an undefined state is skipped; otherwise the record
   named by the effective key is serialized and put under that key.
   */
  function Store(c: JsonCodec, m: map<string, string>, item: Item, alias: Option<string>, now: int)
    : (m': map<string, string>)
    ensures item.state.UnDef? ==> m' == m
    ensures item.state.Defined? ==> m'.Keys == m.Keys + {EffectiveKey(item, alias)}
    ensures item.state.Defined? ==>
      m'[EffectiveKey(item, alias)] == c.toJson(MapDbItem(EffectiveKey(item, alias), item.state, now))
    ensures forall k :: k in m && k != EffectiveKey(item, alias) ==> k in m' && m'[k] == m[k]
  {
    if item.state.UnDef? then m
    else
      var key := EffectiveKey(item, alias);
      m[key := c.toJson(MapDbItem(key, item.state, now))]
  }

  /** `store(item)`: the item's own name is passed on as the alias. */
  function StoreItem(c: JsonCodec, m: map<string, string>, item: Item, now: int): (m': map<string, string>)
    ensures m' == Store(c, m, item, None, now)
    ensures item.state.Defined? ==> item.name in m'
    ensures forall k :: k in m && k != item.name ==> k in m' && m'[k] == m[k]
  {
    Store(c, m, item, Some(item.name), now)
  }

  /**
   `query(filter)`: the record stored under the filter's item name, if there is
   a valid one. A payload whose parse throws makes the query throw.
   */
  function Query(c: JsonCodec, m: map<string, string>, itemName: string)
    : (res: Result<seq<MapDbItem>, JsonError>)
    ensures itemName !in m ==> res == Success([])
    ensures res.Failure? <==> itemName in m && Deserialize(c, m[itemName]).Failure?
    ensures res.Success? ==> |res.value| <= 1
    ensures res.Success? ==>
      forall r :: r in res.value <==> itemName in m && Deserialize(c, m[itemName]) == Success(Some(r))
  {
    if itemName !in m then Success([])
    else
      match Deserialize(c, m[itemName])
      case Failure(e) => Failure(e)
      case Success(None) => Success([])
      case Success(Some(r)) => Success([r])
  }

  /** `streamOptional`: an empty stream for an empty optional, else the one value. */
  function StreamOptional<T(!new)>(o: Option<T>): (s: seq<T>)
    ensures |s| <= 1
    ensures forall x :: x in s <==> o == Some(x)
  {
    match o
    case None => []
    case Some(v) => [v]
  }

  /**
   What `getItemInfo` reports: when no stored value's parse throws, every
   stored value that deserializes to a valid record; otherwise the exception.
   */
  function ItemInfo(c: JsonCodec, m: map<string, string>): (info: Result<set<MapDbItem>, JsonError>)
    ensures info.Failure? <==> exists k :: k in m && Deserialize(c, m[k]).Failure?
    ensures info.Success? ==>
      forall r :: r in info.value <==> exists k :: k in m && Deserialize(c, m[k]) == Success(Some(r))
  {
    if exists v :: v in m.Values && Deserialize(c, v).Failure? then
      assert exists k :: k in m && Deserialize(c, m[k]).Failure? by {
        var v :| v in m.Values && Deserialize(c, v).Failure?;
        var k :| k in m && m[k] == v;
      }
      Failure(JsonSyntaxError)
    else
      var listed := set v | v in m.Values && Deserialize(c, v).Success? && Deserialize(c, v).value.Some?
                      :: Deserialize(c, v).value.value;
      assert forall r :: r in listed ==> exists k :: k in m && Deserialize(c, m[k]) == Success(Some(r)) by {
        forall r | r in listed
          ensures exists k :: k in m && Deserialize(c, m[k]) == Success(Some(r))
        {
          var v :| v in m.Values && Deserialize(c, v) == Success(Some(r));
          var k :| k in m && m[k] == v;
        }
      }
      Success(listed)
  }

  /**
   `getItemInfo` as the stream pipeline the service runs: each stored value is
   deserialized, flattened through `StreamOptional` and collected into a set.
   A parse exception aborts the whole pipeline.
   */
  method GetItemInfo(c: JsonCodec, m: map<string, string>) returns (info: Result<set<MapDbItem>, JsonError>)
    ensures info == ItemInfo(c, m)
    ensures info.Success? ==> forall r :: r in info.value ==> c.isValid(r)
  {
    var listed: set<MapDbItem> := {};
    var pending := m.Values;
    while pending != {}
      invariant pending <= m.Values
      invariant forall v :: v in m.Values - pending ==> Deserialize(c, v).Success?
      invariant forall r :: r in listed <==>
        exists v :: v in m.Values - pending && Deserialize(c, v) == Success(Some(r))
      decreases pending
    {
      var v :| v in pending;
      var d := Deserialize(c, v);
      if d.Failure? {
        var k :| k in m && m[k] == v;
        assert Deserialize(c, m[k]).Failure?;
        assert d.error == JsonSyntaxError;
        assert ItemInfo(c, m).Failure?;
        assert ItemInfo(c, m) == Failure(d.error);
        return Failure(d.error);
      }
      listed := listed + set x | x in StreamOptional(d.value);
      pending := pending - {v};
    }
    info := Success(listed);
    forall r | r in ItemInfo(c, m).value
      ensures r in listed
    {
      var k :| k in m && Deserialize(c, m[k]) == Success(Some(r));
      assert m[k] in m.Values;
    }
    forall r | r in listed
      ensures r in ItemInfo(c, m).value
    {
      var v :| v in m.Values && Deserialize(c, v) == Success(Some(r));
      var k :| k in m && m[k] == v;
    }
    assert listed == ItemInfo(c, m).value;
  }
}
