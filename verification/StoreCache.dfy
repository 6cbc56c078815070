/** The store's read-through caches for users and user settings (`store/user.go`,
  * `store/user_setting.go`, `store/user_delete.go`) over the TTL cache.
  */
module StoreCache {
  import opened Wrappers
  import opened TtlCache
  import opened StoreKeys

  datatype User = User(id: int, row: int)

  /** A setting row: the pair of user and key is unique. */
  datatype Setting = Setting(user: int, key: string, value: string)

  type SettingId = (int, string)

  /** The setting keys that the store can decode; rows with other keys are skipped. */
  const KNOWN_KEYS: set<string> :=
    {"SHORTCUTS", "GENERAL", "TAGS", "REFRESH_TOKENS", "PERSONAL_ACCESS_TOKENS", "WEBHOOKS"}

  /** The zero value of the key enumeration, which no stored setting decodes to. */
  const UNSPECIFIED := "KEY_UNSPECIFIED"

  const USER_TTL := 600

  type Users = map<int, User>

  type Settings = map<SettingId, Setting>

  ghost predicate ValidTables(users: Users, settings: Settings) {
    && (forall id :: id in users ==> users[id].id == id)
    && (forall s :: s in settings ==> settings[s].user == s.0 && settings[s].key == s.1)
  }

  /** Every cached user is the row of the table. */
  ghost predicate UsersCoherent(users: Users, cached: Items<User>) {
    forall id :: UserKey(id) in cached ==> id in users && cached[UserKey(id)].value == users[id]
  }

  /** Every cached setting is a decodable row of the table. */
  ghost predicate SettingsCoherent(settings: Settings, cached: Items<Setting>) {
    forall u, k :: SettingKey(u, k) in cached ==>
      (u, k) in settings && k in KNOWN_KEYS && cached[SettingKey(u, k)].value == settings[(u, k)]
  }

  lemma UserStored(users: Users, before: Items<User>, after: Items<User>, user: User, item: Item<User>, maxItems: int)
    requires UsersCoherent(users[user.id := user], before - {UserKey(user.id)})
    requires Stored(before, after, UserKey(user.id), item, maxItems) && item.value == user
    ensures UsersCoherent(users[user.id := user], after)
  {
    forall id | UserKey(id) in after
      ensures id in users[user.id := user] && after[UserKey(id)].value == users[user.id := user][id]
    {
      if UserKey(id) == UserKey(user.id) {
        UserKeyInjective(id, user.id);
      }
    }
  }

  lemma SettingStored(settings: Settings, before: Items<Setting>, after: Items<Setting>, s: Setting,
                      item: Item<Setting>, maxItems: int)
    requires SettingsCoherent(settings[(s.user, s.key) := s], before - {SettingKey(s.user, s.key)})
    requires Stored(before, after, SettingKey(s.user, s.key), item, maxItems) && item.value == s && s.key in KNOWN_KEYS
    ensures SettingsCoherent(settings[(s.user, s.key) := s], after)
  {
    var now := settings[(s.user, s.key) := s];
    forall u, k | SettingKey(u, k) in after
      ensures (u, k) in now && k in KNOWN_KEYS && after[SettingKey(u, k)].value == now[(u, k)]
    {
      if SettingKey(u, k) == SettingKey(s.user, s.key) {
        SettingKeyInjective(u, k, s.user, s.key);
      }
    }
  }

  /** Writing one row only makes that row's entry stale. */
  lemma UserWritten(users: Users, cached: Items<User>, user: User)
    requires UsersCoherent(users, cached)
    ensures UsersCoherent(users[user.id := user], cached - {UserKey(user.id)})
  {
  }

  lemma SettingWritten(settings: Settings, cached: Items<Setting>, s: Setting)
    requires SettingsCoherent(settings, cached)
    ensures SettingsCoherent(settings[(s.user, s.key) := s], cached - {SettingKey(s.user, s.key)})
  {
  }

  /** Forgetting an entry keeps coherence. */
  lemma UserForgotten(users: Users, cached: Items<User>, key: string)
    requires UsersCoherent(users, cached)
    ensures UsersCoherent(users, cached - {key})
  {
  }

  lemma SettingForgotten(settings: Settings, cached: Items<Setting>, key: string)
    requires SettingsCoherent(settings, cached)
    ensures SettingsCoherent(settings, cached - {key})
  {
  }

  lemma CachedSetting(settings: Settings, cached: Items<Setting>, user: int, key: string)
    requires SettingsCoherent(settings, cached) && SettingKey(user, key) in cached
    ensures (user, key) in settings && key in KNOWN_KEYS && cached[SettingKey(user, key)].value == settings[(user, key)]
  {
  }

  lemma TablesAfterDelete(users: Users, settings: Settings, ids: set<int>, rows: set<SettingId>)
    requires ValidTables(users, settings)
    ensures ValidTables(users - ids, settings - rows)
  {
  }

  lemma UserDeleted(users: Users, cached: Items<User>, id: int)
    requires UsersCoherent(users, cached)
    ensures UsersCoherent(users - {id}, cached - {UserKey(id)})
  {
  }

  /** The rows that a find or delete of settings touches; the unspecified key stands for any key. */
  function SettingsOf(settings: Settings, user: Option<int>, key: string): set<SettingId> {
    set s | s in settings && (user.None? || s.0 == user.value) && (key == UNSPECIFIED || s.1 == key)
  }

  function Decodable(rows: set<SettingId>): set<SettingId> { set s | s in rows && s.1 in KNOWN_KEYS }

  function UsersOf(users: Users, id: Option<int>, other: User -> bool): set<User> {
    set u | u in users.Values && u.id in users && users[u.id] == u && (id.None? || u.id == id.value) && other(u)
  }

  /** The settings and rows in the list are the same, each once. */
  ghost predicate Lists(settings: Settings, rows: set<SettingId>, list: seq<Setting>) {
    && |list| == |rows|
    && (forall s :: s in rows ==> s in settings && settings[s] in list)
    && (forall i :: 0 <= i < |list| ==>
       (list[i].user, list[i].key) in rows && list[i] == settings[(list[i].user, list[i].key)])
    && forall i, j :: 0 <= i < j < |list| ==> list[i] != list[j]
  }

  /** Deleting rows and dropping the entries of all of them that can be decoded keeps coherence. */
  lemma SettingsDeleted(settings: Settings, cached: Items<Setting>, rows: set<SettingId>, dropped: set<string>)
    requires SettingsCoherent(settings, cached)
    requires forall s :: s in rows && s in settings && s.1 in KNOWN_KEYS ==> SettingKey(s.0, s.1) in dropped
    ensures SettingsCoherent(settings - rows, cached - dropped)
  {
    forall u, k | SettingKey(u, k) in cached - dropped
      ensures (u, k) in settings - rows
    {
      assert (u, k) !in rows;
    }
  }

  function Row(users: Users, id: int): Option<User> { if id in users then Some(users[id]) else None }

  lemma CachedUser(users: Users, cached: Items<User>, id: int)
    requires UsersCoherent(users, cached) && UserKey(id) in cached
    ensures id in users && cached[UserKey(id)].value == users[id]
  {
  }

  lemma UsersFound(users: Users, id: Option<int>, other: User -> bool)
    ensures forall u :: u in UsersOf(users, id, other) ==>
              u.id in users && users[u.id] == u && (id.Some? ==> u.id == id.value) && other(u)
  {
  }

  /** A row that a search for `id`, or for any id, with the other conditions is about. */
  ghost predicate Sought(users: Users, id: Option<int>, other: User -> bool, u: User) {
    u.id in users && u == users[u.id] && other(u) && (id == None || id == Some(u.id))
  }

  lemma SoughtAreUsersOf(users: Users, id: Option<int>, other: User -> bool)
    ensures forall u :: u in UsersOf(users, id, other) <==> Sought(users, id, other, u)
  {
  }

  /** A row that a search for a user's settings, or for all users', with a key or any key is about. */
  ghost predicate SettingSought(settings: Settings, user: Option<int>, key: string, s: Setting) {
    && (s.user, s.key) in settings && s == settings[(s.user, s.key)]
    && (user == None || user == Some(s.user)) && (key == "KEY_UNSPECIFIED" || key == s.key)
  }

  lemma SoughtAreSettingsOf(settings: Settings, user: Option<int>, key: string)
    requires forall id :: id in settings ==> settings[id].user == id.0 && settings[id].key == id.1
    ensures forall id :: id in settings ==>
              (id in SettingsOf(settings, user, key) <==> SettingSought(settings, user, key, settings[id]))
    ensures SettingsOf(settings, user, key) <= settings.Keys
    ensures forall s :: SettingSought(settings, user, key, s) ==> (s.user, s.key) in SettingsOf(settings, user, key)
  {
  }

  /** The keys that can be decoded. */
  lemma KnownKeys(key: string)
    ensures key in KNOWN_KEYS <==>
            key == "GENERAL" || key == "SHORTCUTS" || key == "TAGS" || key == "WEBHOOKS" || key == "REFRESH_TOKENS"
            || key == "PERSONAL_ACCESS_TOKENS"
    ensures UNSPECIFIED == "KEY_UNSPECIFIED" && UNSPECIFIED !in KNOWN_KEYS
  {
  }

  lemma UserFound(users: Users, id: int, other: User -> bool)
    requires id in users && users[id].id == id && forall u :: other(u)
    ensures users[id] in UsersOf(users, Some(id), other)
  {
  }

  /** A search answers with a row that meets all its conditions, or with nothing when there is none. */
  ghost predicate ReadsAsTable(users: Users, id: Option<int>, other: User -> bool, user: Option<User>) {
    match user
    case Some(u) => Sought(users, id, other, u)
    case None => forall u :: !Sought(users, id, other, u)
  }

  function UserItem(user: User, now: int): Item<User> { Item(user, now + USER_TTL) }

  function SettingItem(s: Setting, now: int): Item<Setting> { Item(s, now + USER_TTL) }

  /** The cache is as before, except that the row was stored in it. */
  ghost predicate StoredUser(before: Items<User>, after: Items<User>, user: User, now: int, maxItems: int) {
    Stored(before, after, UserKey(user.id), UserItem(user, now), maxItems)
  }

  ghost predicate StoredSetting(before: Items<Setting>, after: Items<Setting>, s: Setting, now: int, maxItems: int) {
    Stored(before, after, SettingKey(s.user, s.key), SettingItem(s, now), maxItems)
  }

  function UserPuts(list: seq<User>, now: int): seq<(string, Item<User>)> {
    seq(|list|, i requires 0 <= i < |list| => (UserKey(list[i].id), UserItem(list[i], now)))
  }

  function SettingPuts(list: seq<Setting>, now: int): seq<(string, Item<Setting>)> {
    seq(|list|, i requires 0 <= i < |list| => (SettingKey(list[i].user, list[i].key), SettingItem(list[i], now)))
  }

  lemma NothingPut(now: int)
    ensures UserPuts([], now) == [] && SettingPuts([], now) == []
  {
  }

  lemma NextPut(before: Items<User>, mid: Items<User>, after: Items<User>, list: seq<User>, user: User, now: int,
                maxItems: int)
    requires StoredAll(before, mid, UserPuts(list, now), maxItems) && StoredUser(mid, after, user, now, maxItems)
    ensures StoredAll(before, after, UserPuts(list + [user], now), maxItems)
  {
    var puts := UserPuts(list + [user], now);
    var last := |puts| - 1;
    assert puts[..last] == UserPuts(list, now) && puts[last] == (UserKey(user.id), UserItem(user, now));
    assert Stored(mid, after, puts[last].0, puts[last].1, maxItems);
    hide Stored, UserKey, UserItem, UserPuts;
    assert StoredAll(before, mid, puts[..last], maxItems);
  }

  lemma NextSettingPut(before: Items<Setting>, mid: Items<Setting>, after: Items<Setting>, list: seq<Setting>,
                       s: Setting, now: int, maxItems: int)
    requires StoredAll(before, mid, SettingPuts(list, now), maxItems) && StoredSetting(mid, after, s, now, maxItems)
    ensures StoredAll(before, after, SettingPuts(list + [s], now), maxItems)
  {
    var puts := SettingPuts(list + [s], now);
    var last := |puts| - 1;
    assert puts[..last] == SettingPuts(list, now) && puts[last] == (SettingKey(s.user, s.key), SettingItem(s, now));
    assert Stored(mid, after, puts[last].0, puts[last].1, maxItems);
    hide Stored, SettingKey, SettingItem, SettingPuts;
    assert StoredAll(before, mid, puts[..last], maxItems);
  }

  /** The list holds every row of the set and nothing else, each once. */
  ghost predicate Exactly<T(!new)>(list: seq<T>, rows: set<T>) {
    && |list| == |rows|
    && (forall x :: x in list <==> x in rows)
    && forall i, j :: 0 <= i < j < |list| ==> list[i] != list[j]
  }

  lemma ExactlyNext<T(!new)>(list: seq<T>, rows: set<T>, left: set<T>, x: T)
    requires Exactly(list, rows - left) && x in left && left <= rows
    ensures Exactly(list + [x], rows - (left - {x}))
  {
    assert rows - (left - {x}) == rows - left + {x};
    assert forall i :: 0 <= i < |list| ==> list[i] in list;
  }

  /** When all of them fit, every listed row is cached. */
  lemma ListedAreCached(users: Users, before: Items<User>, after: Items<User>, list: seq<User>, rows: set<User>,
                        now: int, maxItems: int)
    requires Exactly(list, rows) && (forall u :: u in rows ==> u.id in users && users[u.id] == u)
    requires StoredAll(before, after, UserPuts(list, now), maxItems)
    requires maxItems <= 0 || |before.Keys + PutKeys(UserPuts(list, now))| <= maxItems
    ensures forall u :: u in rows ==> UserKey(u.id) in after && after[UserKey(u.id)] == UserItem(u, now)
  {
    var puts := UserPuts(list, now);
    AllFit(before, after, puts, maxItems);
    hide StoredAll, PutAll, PutKeys, UserKey, UserItem;
    forall u | u in rows
      ensures UserKey(u.id) in after && after[UserKey(u.id)] == UserItem(u, now)
    {
      var i :| 0 <= i < |list| && list[i] == u;
      forall j | 0 <= j < |puts| && j != i
        ensures puts[j].0 != puts[i].0
      {
        assert list[j] in list && list[j] != list[i];
        if UserKey(list[j].id) == UserKey(u.id) {
          UserKeyInjective(list[j].id, u.id);
        }
      }
      PutOnce(before, puts, i);
    }
  }

  lemma SettingsFound(settings: Settings, user: Option<int>, key: string)
    requires forall s :: s in settings ==> settings[s].user == s.0 && settings[s].key == s.1
    ensures forall s :: s in SettingsOf(settings, user, key) ==>
              s in settings && settings[s].user == s.0 && settings[s].key == s.1
  {
  }

  lemma ListedAreSought(settings: Settings, user: Option<int>, key: string, list: seq<Setting>)
    requires forall s :: s in SettingsOf(settings, user, key) ==> settings[s].user == s.0 && settings[s].key == s.1
    requires forall s :: s in SettingsOf(settings, user, key) ==> s in settings
    requires Lists(settings, Decodable(SettingsOf(settings, user, key)), list)
    ensures forall s :: s in list <==> SettingSought(settings, user, key, s) && s.key in KNOWN_KEYS
  {
    hide KNOWN_KEYS;
  }

  lemma NothingListed(settings: Settings, rows: set<SettingId>)
    ensures Lists(settings, Decodable(rows - rows), [])
  {
  }

  lemma ListOneMore(settings: Settings, rows: set<SettingId>, list: seq<Setting>, id: SettingId)
    requires Lists(settings, rows, list) && id in settings && id !in rows
    requires settings[id].user == id.0 && settings[id].key == id.1
    ensures Lists(settings, rows + {id}, list + [settings[id]])
  {
  }

  lemma ListNext(settings: Settings, rows: set<SettingId>, left: set<SettingId>, id: SettingId, list: seq<Setting>)
    requires left <= rows && id in left && id in settings && settings[id].user == id.0 && settings[id].key == id.1
    requires Lists(settings, Decodable(rows - left), list)
    ensures Lists(settings, Decodable(rows - (left - {id})), if id.1 in KNOWN_KEYS then list + [settings[id]] else list)
  {
    hide KNOWN_KEYS, Lists;
    var before := Decodable(rows - left);
    if id.1 in KNOWN_KEYS {
      assert Decodable(rows - (left - {id})) == before + {id};
      assert id !in before;
      ListOneMore(settings, before, list, id);
    } else {
      assert Decodable(rows - (left - {id})) == before;
    }
  }

  /** One row is read as itself, no row as nothing, and several rows as an error. */
  ghost predicate ReadsOne(settings: Settings, rows: set<SettingId>, result: Result<Option<Setting>, string>) {
    && (result == Ok(None) <==> rows == {})
    && (result.Err? <==> |rows| > 1)
    && (result.Ok? && result.value.Some? ==>
          var s := result.value.value;
          rows == {(s.user, s.key)} && (s.user, s.key) in settings && settings[(s.user, s.key)] == s)
  }

  /** A specific key of a user is one row. */
  lemma OnlyRow(settings: Settings, user: int, key: string)
    requires (user, key) in settings && key in KNOWN_KEYS
    ensures Decodable(SettingsOf(settings, Some(user), key)) == {(user, key)}
  {
  }

  lemma OneIsSought(users: Users, settings: Settings, user: int, key: string)
    requires ValidTables(users, settings) && (user, key) in settings && key in KNOWN_KEYS
    ensures forall t ::
              SettingSought(settings, Some(user), key, t) && t.key in KNOWN_KEYS <==> t == settings[(user, key)]
  {
  }

  function ListedKeys(list: seq<Setting>): set<string>
  {
    set i | 0 <= i < |list| :: SettingKey(list[i].user, list[i].key)
  }

  lemma NothingListedYet(cached: Items<Setting>, list: seq<Setting>)
    ensures cached - ListedKeys(list[..0]) == cached
  {
  }

  lemma NextListedKey(cached: Items<Setting>, list: seq<Setting>, i: nat)
    requires i < |list|
    ensures cached - ListedKeys(list[..i]) - {SettingKey(list[i].user, list[i].key)}
         == cached - ListedKeys(list[..i + 1])
  {
    hide SettingKey;
    var all := list[..i + 1];
    assert all[i] == list[i];
    assert forall j :: 0 <= j < i ==> all[j] == list[..i][j];
    assert ListedKeys(all) == ListedKeys(list[..i]) + {SettingKey(list[i].user, list[i].key)};
  }

  lemma RowsOfUser(settings: Settings, id: int)
    ensures forall s :: s in settings - SettingsOf(settings, Some(id), UNSPECIFIED) <==> s in settings && s.0 != id
  {
  }

  lemma KeptAreNotSought(users: Users, settings: Settings, user: Option<int>, key: string)
    requires ValidTables(users, settings)
    ensures forall id :: id in settings - SettingsOf(settings, user, key) <==>
              id in settings && !SettingSought(settings, user, key, settings[id])
  {
    SoughtAreSettingsOf(settings, user, key);
    hide SettingsOf, SettingSought;
  }

  lemma ListedCover(users: Users, settings: Settings, user: Option<int>, key: string, list: seq<Setting>)
    requires ValidTables(users, settings) && Lists(settings, Decodable(SettingsOf(settings, user, key)), list)
    ensures forall s :: s in SettingsOf(settings, user, key) && s in settings && s.1 in KNOWN_KEYS ==>
              SettingKey(s.0, s.1) in ListedKeys(list)
  {
  }

  lemma NoUsersDeleted(users: Users)
    ensures users - {} == users
  {
  }

  /** A stored key that the enumeration does not know is read as its zero value. */
  function EnumName(key: string): string { if key in KNOWN_KEYS then key else UNSPECIFIED }

  /** The cache keys dropped for the reported setting keys. */
  function KeyNames(id: int, keys: set<string>): set<string> { set k | k in keys :: SettingKey(id, EnumName(k)) }

  lemma DropNone(cached: Items<Setting>, id: int, keys: set<string>)
    ensures cached - KeyNames(id, keys - keys) == cached
  {
  }

  lemma DropNext(cached: Items<Setting>, id: int, keys: set<string>, left: set<string>, key: string)
    requires left <= keys && key in left
    ensures cached - KeyNames(id, keys - left) - {SettingKey(id, EnumName(key))}
         == cached - KeyNames(id, keys - (left - {key}))
  {
  }

  /** After the cascade no setting of the user is cached, and the other entries are coherent. */
  lemma UserSettingsDeleted(settings: Settings, cached: Items<Setting>, id: int, keys: set<string>)
    requires SettingsCoherent(settings, cached)
    requires keys == set s | s in SettingsOf(settings, Some(id), UNSPECIFIED) :: s.1
    ensures SettingsCoherent(settings - SettingsOf(settings, Some(id), UNSPECIFIED), cached - KeyNames(id, keys))
    ensures forall k :: SettingKey(id, k) !in cached - KeyNames(id, keys)
  {
    hide SettingKey, KNOWN_KEYS;
    var rows := SettingsOf(settings, Some(id), UNSPECIFIED);
    forall s | s in rows && s.1 in KNOWN_KEYS
      ensures SettingKey(s.0, s.1) in KeyNames(id, keys)
    {
      assert s.1 in keys && EnumName(s.1) == s.1;
    }
    SettingsDeleted(settings, cached, rows, KeyNames(id, keys));
    forall k
      ensures SettingKey(id, k) !in cached - KeyNames(id, keys)
    {
      if SettingKey(id, k) in cached {
        assert (id, k) in rows;
      }
    }
  }

  class Store {
    var users: Users
    var settings: Settings
    const userCache: Cache<User>
    const settingCache: Cache<Setting>

    constructor (maxItems: int)
      ensures Valid() && fresh(userCache) && fresh(settingCache) && users == map[] && settings == map[]
      ensures userCache.data == map[] && settingCache.data == map[]
      ensures userCache.maxItems == maxItems && settingCache.maxItems == maxItems
    {
      userCache := new Cache(maxItems);
      settingCache := new Cache(maxItems);
      users, settings := map[], map[];
    }

    ghost predicate Valid()
      reads this, userCache, settingCache
    {
      && userCache.Valid() && settingCache.Valid() && ValidTables(users, settings)
      && UsersCoherent(users, userCache.data) && SettingsCoherent(settings, settingCache.data)
    }

    // Users.

    /** The driver hands out a new id. */
    method CreateUser(user: User, now: int)
      requires Valid() && user.id !in users
      modifies this`users, userCache
      ensures Valid() && users == old(users)[user.id := user]
      ensures StoredUser(old(userCache.data), userCache.data, user, now, userCache.maxItems)
    {
      hide Stored, UsersCoherent, SettingsCoherent, UserItem, SettingItem;
      UserWritten(users, userCache.data, user);
      users := users[user.id := user];
      RememberUser(user, now);
    }

    /** `s.userCache.Set` for a row that the table holds. */
    method RememberUser(user: User, now: int)
      requires userCache.Valid() && user.id in users && users[user.id] == user
      requires UsersCoherent(users, userCache.data - {UserKey(user.id)})
      modifies userCache
      ensures userCache.Valid() && UsersCoherent(users, userCache.data)
      ensures StoredUser(old(userCache.data), userCache.data, user, now, userCache.maxItems)
    {
      ghost var before := userCache.data;
      userCache.SetWithTTL(UserKey(user.id), user, USER_TTL, now);
      assert users[user.id := user] == users;
      UserStored(users, before, userCache.data, user, Item(user, now + USER_TTL), userCache.maxItems);
    }

    /** The driver updates and returns the row, or fails when there is none. */
    method UpdateUser(user: User, now: int) returns (updated: bool)
      requires Valid()
      modifies this`users, userCache
      ensures Valid() && updated == (user.id in old(users))
      ensures users == if updated then old(users)[user.id := user] else old(users)
      ensures if updated then StoredUser(old(userCache.data), userCache.data, user, now, userCache.maxItems)
              else userCache.data == old(userCache.data)
    {
      hide Stored, UsersCoherent, SettingsCoherent, UserItem, SettingItem;
      if user.id !in users {
        return false;
      }
      UserWritten(users, userCache.data, user);
      users := users[user.id := user];
      RememberUser(user, now);
      return true;
    }

    /** The matching rows in an arbitrary order, each stored in the cache in turn. */
    method ListUsers(id: Option<int>, other: User -> bool, now: int) returns (list: seq<User>)
      requires Valid()
      modifies userCache
      ensures Valid() && Exactly(list, UsersOf(users, id, other))
      ensures forall u :: u in list <==>
                u.id in users && u == users[u.id] && other(u) && (id.Some? ==> u.id == id.value)
      ensures StoredAll(old(userCache.data), userCache.data, UserPuts(list, now), userCache.maxItems)
    {
      var rows := UsersOf(users, id, other);
      var left := rows;
      list := [];
      NothingPut(now);
      UsersFound(users, id, other);
      SoughtAreUsersOf(users, id, other);
      assert forall u :: u in rows <==>
               u.id in users && u == users[u.id] && other(u) && (id.Some? ==> u.id == id.value);
      assert rows - left == {} && Exactly(list, rows - left);
      hide *;
      while left != {}
        invariant left <= rows && (forall u :: u in rows ==> u.id in users && users[u.id] == u) && Valid()
        invariant Exactly(list, rows - left)
        invariant StoredAll(old(userCache.data), userCache.data, UserPuts(list, now), userCache.maxItems)
      {
        ghost var mid := userCache.data;
        var user :| user in left;
        RememberRow(user.id, now);
        NextPut(old(userCache.data), mid, userCache.data, list, user, now, userCache.maxItems);
        ExactlyNext(list, rows, left, user);
        list := list + [user];
        left := left - {user};
      }
      assert rows - left == rows;
    }

    /** Remembering a row again keeps the cache coherent. */
    method RememberRow(id: int, now: int)
      requires Valid() && id in users
      modifies userCache
      ensures Valid() && StoredUser(old(userCache.data), userCache.data, users[id], now, userCache.maxItems)
    {
      hide Stored, UsersCoherent, SettingsCoherent, UserItem, SettingItem;
      UserWritten(users, userCache.data, users[id]);
      assert users[id := users[id]] == users;
      RememberUser(users[id], now);
    }

    ghost predicate LiveUser(id: int, now: int)
      reads this, userCache
    {
      UserKey(id) in userCache.data && now <= userCache.data[UserKey(id)].expiration
    }

    /** `GetUser`: by id alone, what reading the table would return; a cached row is returned without
      * looking at the other conditions of the search.
      */
    method GetUser(id: Option<int>, other: User -> bool, now: int) returns (user: Option<User>)
      requires Valid()
      modifies userCache
      ensures Valid()
      ensures user.Some? ==>
                && user.value.id in users && user.value == users[user.value.id]
                && (id.Some? ==> user.value.id == id.value)
      ensures id.Some? && old(LiveUser(id.value, now)) ==> user.Some?
      ensures !(id.Some? && old(LiveUser(id.value, now))) ==> (user.Some? ==> other(user.value))
      ensures !(id.Some? && old(LiveUser(id.value, now))) ==>
                (user.None? <==>
                 forall u: User :: u.id in users && u == users[u.id] && other(u) ==> id.Some? && u.id != id.value)
      ensures id.Some? && (forall u :: other(u)) ==> user == Row(users, id.value)
      ensures ReadsAsTable(users, id, other, user)
         <==> (id.Some? && old(LiveUser(id.value, now)) ==> id.value in users && other(users[id.value]))
    {
      hide UsersCoherent, SettingsCoherent;
      if id.Some? {
        var cached := userCache.Get(UserKey(id.value), now);
        if cached.Some? {
          CachedUser(users, userCache.data, id.value);
          return cached;
        }
        UserForgotten(users, old(userCache.data), UserKey(id.value));
      }
      var list := ListUsers(id, other, now);
      assert forall u :: u in list <==> Sought(users, id, other, u);
      if |list| == 0 {
        if id.Some? && id.value in users && forall u :: other(u) {
          UserFound(users, id.value, other);
        }
        return None;
      }
      UsersFound(users, id, other);
      assert list[0] in UsersOf(users, id, other);
      RememberRow(list[0].id, now);
      return Some(list[0]);
    }

    /** `DeleteUser`: the driver removes the user's row and settings and reports the setting keys; then
      * no cache entry of the user is left.
      */
    method DeleteUser(id: int)
      requires Valid()
      modifies this`users, this`settings, userCache, settingCache
      ensures Valid() && users == old(users) - {id}
      ensures settings == old(settings) - SettingsOf(old(settings), Some(id), UNSPECIFIED)
      ensures forall s :: s in settings <==> s in old(settings) && s.0 != id
      ensures UserKey(id) !in userCache.data && forall k :: SettingKey(id, k) !in settingCache.data
    {
      hide UsersCoherent, SettingsCoherent, KNOWN_KEYS, SettingsOf, SettingKey, KeyNames, ValidTables;
      ghost var settings0, cached0 := settings, settingCache.data;
      var rows := SettingsOf(settings, Some(id), UNSPECIFIED);
      assert forall s :: s in settings - rows <==> s in settings && s.0 != id by { RowsOfUser(settings, id); }
      var keys := set s | s in rows :: s.1;
      UserDeleted(users, userCache.data, id);
      TablesAfterDelete(users, settings, {id}, rows);
      users, settings := users - {id}, settings - rows;
      userCache.Delete(UserKey(id));
      DeleteUserCache(id, keys);
      UserSettingsDeleted(settings0, cached0, id, keys);
    }

    /** `deleteUserCache` for the reported setting keys. */
    method DeleteUserCache(id: int, keys: set<string>)
      requires settingCache.Valid()
      modifies settingCache
      ensures settingCache.Valid() && settingCache.data == old(settingCache.data) - KeyNames(id, keys)
    {
      hide *;
      var left := keys;
      DropNone(settingCache.data, id, keys);
      while left != {}
        invariant left <= keys && settingCache.Valid()
        invariant settingCache.data == old(settingCache.data) - KeyNames(id, keys - left)
      {
        var key :| key in left;
        settingCache.Delete(SettingKey(id, EnumName(key)));
        DropNext(old(settingCache.data), id, keys, left, key);
        left := left - {key};
      }
      assert keys - left == keys;
    }

    // User settings.

    method RememberSetting(s: Setting, now: int)
      requires settingCache.Valid() && (s.user, s.key) in settings && settings[(s.user, s.key)] == s
               && s.key in KNOWN_KEYS
      requires SettingsCoherent(settings, settingCache.data - {SettingKey(s.user, s.key)})
      modifies settingCache
      ensures settingCache.Valid() && SettingsCoherent(settings, settingCache.data)
      ensures StoredSetting(old(settingCache.data), settingCache.data, s, now, settingCache.maxItems)
    {
      ghost var before := settingCache.data;
      settingCache.SetWithTTL(SettingKey(s.user, s.key), s, USER_TTL, now);
      assert settings[(s.user, s.key) := s] == settings;
      SettingStored(settings, before, settingCache.data, s, Item(s, now + USER_TTL), settingCache.maxItems);
    }

    /** `UpsertUserSetting`: a key that cannot be encoded is an error. */
    method UpsertUserSetting(s: Setting, now: int) returns (stored: bool)
      requires Valid()
      modifies this`settings, settingCache
      ensures Valid() && stored == (s.key in KNOWN_KEYS)
      ensures settings == if stored then old(settings)[(s.user, s.key) := s] else old(settings)
      ensures if stored then StoredSetting(old(settingCache.data), settingCache.data, s, now, settingCache.maxItems)
              else settingCache.data == old(settingCache.data)
    {
      hide Stored, UsersCoherent, SettingsCoherent, UserItem, SettingItem;
      if s.key !in KNOWN_KEYS {
        return false;
      }
      SettingWritten(settings, settingCache.data, s);
      settings := settings[(s.user, s.key) := s];
      RememberSetting(s, now);
      return true;
    }

    /** The matching rows that can be decoded, in an arbitrary order, each stored in the cache in turn. */
    method ListUserSettings(user: Option<int>, key: string, now: int) returns (list: seq<Setting>)
      requires Valid()
      modifies settingCache
      ensures Valid() && Lists(settings, Decodable(SettingsOf(settings, user, key)), list)
      ensures forall s :: s in list <==> SettingSought(settings, user, key, s) && s.key in KNOWN_KEYS
      ensures StoredAll(old(settingCache.data), settingCache.data, SettingPuts(list, now), settingCache.maxItems)
    {
      SettingsFound(settings, user, key);
      NothingPut(now);
      assert StoredAll(settingCache.data, settingCache.data, [], settingCache.maxItems);
      hide *;
      list := [];
      var rows := SettingsOf(settings, user, key);
      var left := rows;
      NothingListed(settings, rows);
      while left != {}
        invariant left <= rows && Valid()
        invariant Lists(settings, Decodable(rows - left), list)
        invariant StoredAll(old(settingCache.data), settingCache.data, SettingPuts(list, now), settingCache.maxItems)
      {
        ghost var mid := settingCache.data;
        var id :| id in left;
        ListNext(settings, rows, left, id, list);
        left := left - {id};
        if id.1 in KNOWN_KEYS {
          RememberSettingRow(id, now);
          NextSettingPut(old(settingCache.data), mid, settingCache.data, list, settings[id], now,
              settingCache.maxItems);
          list := list + [settings[id]];
        }
      }
      assert rows - left == rows;
      ListedAreSought(settings, user, key, list);
    }

    method RememberSettingRow(id: SettingId, now: int)
      requires Valid() && id in settings && id.1 in KNOWN_KEYS
      modifies settingCache
      ensures Valid() && StoredSetting(old(settingCache.data), settingCache.data, settings[id], now,
              settingCache.maxItems)
    {
      hide Stored, UsersCoherent, SettingsCoherent, UserItem, SettingItem, KNOWN_KEYS;
      SettingWritten(settings, settingCache.data, settings[id]);
      assert settings[id := settings[id]] == settings;
      RememberSetting(settings[id], now);
    }

    /** `GetUserSetting`: what reading the table would return. More than one row is an error. */
    method GetUserSetting(user: Option<int>, key: string, now: int) returns (result: Result<Option<Setting>, string>)
      requires Valid()
      modifies settingCache
      ensures Valid() && ReadsOne(settings, Decodable(SettingsOf(settings, user, key)), result)
      ensures match result
              case Ok(Some(s)) =>
                forall t :: SettingSought(settings, user, key, t) && t.key in KNOWN_KEYS <==> t == s
              case Ok(None) => forall t :: !(SettingSought(settings, user, key, t) && t.key in KNOWN_KEYS)
              case Err(_) =>
                exists t, u :: t != u && SettingSought(settings, user, key, t) && t.key in KNOWN_KEYS
                               && SettingSought(settings, user, key, u) && u.key in KNOWN_KEYS
    {
      hide Stored, UsersCoherent, SettingsCoherent, SettingsOf, SettingKey, KNOWN_KEYS;
      if user.Some? {
        ghost var before := settingCache.data;
        var cached := settingCache.Get(SettingKey(user.value, key), now);
        if cached.Some? {
          CachedSetting(settings, before, user.value, key);
          OnlyRow(settings, user.value, key);
          OneIsSought(users, settings, user.value, key);
          return Ok(cached);
        }
        SettingForgotten(settings, before, SettingKey(user.value, key));
      }
      var list := ListUserSettings(user, key, now);
      if |list| == 0 {
        return Ok(None);
      }
      if |list| > 1 {
        return Err("expected 1 user setting");
      }
      RememberSettingRow((list[0].user, list[0].key), now);
      return Ok(Some(list[0]));
    }

    /** `DeleteUserSettings`: list, delete the rows, then drop the listed entries. */
    method DeleteUserSettings(user: Option<int>, key: string, now: int)
      requires Valid()
      modifies this`settings, settingCache
      ensures Valid() && settings == old(settings) - SettingsOf(old(settings), user, key)
      ensures forall id :: id in settings <==>
                id in old(settings) && !SettingSought(old(settings), user, key, old(settings)[id])
    {
      hide Stored, UsersCoherent, SettingsCoherent, KNOWN_KEYS, SettingKey, SettingsOf, Decodable, Lists, ValidTables;
      var existing := ListUserSettings(user, key, now);
      ghost var settings0, cached0 := settings, settingCache.data;
      var rows := SettingsOf(settings, user, key);
      TablesAfterDelete(users, settings, {}, rows);
      KeptAreNotSought(users, settings, user, key);
      NoUsersDeleted(users);
      ListedCover(users, settings, user, key, existing);
      settings := settings - rows;
      ForgetSettings(existing);
      SettingsDeleted(settings0, cached0, rows, ListedKeys(existing));
    }

    /** Drop the entries of the listed settings. */
    method ForgetSettings(list: seq<Setting>)
      requires settingCache.Valid()
      modifies settingCache
      ensures settingCache.Valid() && settingCache.data == old(settingCache.data) - ListedKeys(list)
    {
      hide *;
      NothingListedYet(settingCache.data, list);
      for i := 0 to |list|
        invariant settingCache.Valid() && settingCache.data == old(settingCache.data) - ListedKeys(list[..i])
      {
        settingCache.Delete(SettingKey(list[i].user, list[i].key));
        NextListedKey(old(settingCache.data), list, i);
      }
      assert list[..|list|] == list;
    }
  }

  /** A search by id with a condition that the row does not meet: the row was cached when it was created,
    * and it is returned.
    */
  method CachedRowIsReturned(maxItems: int) returns (user: Option<User>)
    ensures var row := User(1, 7);
            user == Some(row) && !ReadsAsTable(map[1 := row], Some(1), _ => false, user)
  {
    var row := User(1, 7);
    var store := new Store(maxItems);
    store.CreateUser(row, 0);
    assert store.users == map[1 := row];
    NewestSurvives(map[], store.userCache.data, UserKey(1), UserItem(row, 0), maxItems);
    assert store.LiveUser(1, 0);
    user := store.GetUser(Some(1), _ => false, 0);
  }

  /** A created user is answered from the cache for ten minutes, whatever the table says. */
  method CachedForTenMinutes(maxItems: int, now: int)
    returns (store: Store)
    ensures store.LiveUser(1, now + 10 * 60) && !store.LiveUser(1, now + 10 * 60 + 1)
  {
    store := new Store(maxItems);
    store.CreateUser(User(1, 7), now);
    NewestSurvives(map[], store.userCache.data, UserKey(1), UserItem(User(1, 7), now), maxItems);
  }
}
