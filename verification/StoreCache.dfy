/** The store layer that answers reads of users and user settings from its caches. */
module StoreCache {
  import opened Results
  import opened TtlCache
  import opened CacheKeys

  datatype User = User(id: int, rowStatus: string, createdTs: int, updatedTs: int, username: string, role: string,
                       email: string, nickname: string, passwordHash: string, avatarUrl: string, description: string)

  /** The columns an update sets; the others keep their value. */
  datatype UpdateUser = UpdateUser(updatedTs: Option<int>, rowStatus: Option<string>, username: Option<string>,
                                   role: Option<string>, email: Option<string>, nickname: Option<string>,
                                   avatarUrl: Option<string>, passwordHash: Option<string>, description: Option<string>)

  /** An update that sets no column, for which there is no statement. */
  const NOTHING := UpdateUser(None, None, None, None, None, None, None, None, None)

  datatype FindUser = FindUser(id: Option<int>, idList: seq<int>, usernameList: seq<string>, rowStatus: Option<string>, username: Option<string>,
                               role: Option<string>, email: Option<string>, nickname: Option<string>)

  datatype Token = Token(id: string, description: string)

  datatype SettingValue = Tokens(tokens: seq<Token>) | Text(text: string)

  datatype UserSetting = UserSetting(user: int, key: SettingKey, value: SettingValue)

  datatype FindSetting = FindSetting(user: Option<int>, key: SettingKey)

  type SettingsTable = map<(int, SettingKey), SettingValue>

  predicate Wants<T(==)>(wanted: Option<T>, value: T) {
    wanted.None? || wanted.value == value
  }

  predicate UserMatches(u: User, find: FindUser) {
    && (|find.idList| > 0 ==> u.id in find.idList) && (|find.usernameList| > 0 ==> u.username in find.usernameList)
    && Wants(find.id, u.id) && Wants(find.rowStatus, u.rowStatus) && Wants(find.username, u.username)
    && Wants(find.role, u.role) && Wants(find.email, u.email) && Wants(find.nickname, u.nickname)
  }

  /** `WHERE key = ? AND user_id = ?`, each condition only when it is asked for. */
  predicate SettingMatches(user: int, key: SettingKey, find: FindSetting) {
    (find.key == Unspecified || key == find.key) && Wants(find.user, user)
  }

  /** Every condition that is asked for compares its own column. */
  lemma UserMatchesMeans(u: User, find: FindUser)
    ensures UserMatches(u, find) <==>
            && (find.id.Some? ==> find.id.value == u.id)
            && (|find.idList| > 0 ==> exists i :: 0 <= i < |find.idList| && find.idList[i] == u.id)
            && (|find.usernameList| > 0 ==> exists i :: 0 <= i < |find.usernameList| && find.usernameList[i] == u.username)
            && (find.rowStatus.Some? ==> find.rowStatus.value == u.rowStatus)
            && (find.username.Some? ==> find.username.value == u.username)
            && (find.role.Some? ==> find.role.value == u.role)
            && (find.email.Some? ==> find.email.value == u.email)
            && (find.nickname.Some? ==> find.nickname.value == u.nickname)
  {
  }

  lemma SettingMatchesMeans(user: int, key: SettingKey, find: FindSetting)
    ensures SettingMatches(user, key, find) <==>
            (find.key != Unspecified ==> find.key == key) && (find.user.Some? ==> find.user.value == user)
  {
  }

  function Or<T>(o: Option<T>, default: T): T {
    if o.Some? then o.value else default
  }

  function Updated(u: User, update: UpdateUser): User {
    User(u.id, Or(update.rowStatus, u.rowStatus), u.createdTs, Or(update.updatedTs, u.updatedTs),
         Or(update.username, u.username), Or(update.role, u.role), Or(update.email, u.email),
         Or(update.nickname, u.nickname), Or(update.passwordHash, u.passwordHash), Or(update.avatarUrl, u.avatarUrl),
         Or(update.description, u.description))
  }

  /** What a setting reads back as after it was stored under its key: a value of another kind is
      stored as the empty value of the key's kind. */
  function SavedValue(key: SettingKey, value: SettingValue): SettingValue {
    if key == RefreshTokens then (if value.Tokens? then value else Tokens([]))
    else (if value.Text? then value else Text(""))
  }

  /** Every cached user is the row of the table. */
  ghost predicate UsersCoherent(users: map<int, User>, cached: Data<User>) {
    && (forall id :: id in users ==> users[id].id == id)
    && forall id :: UserKey(id) in cached ==> id in users && cached[UserKey(id)].value == users[id]
  }

  /** Every cached setting is the row of the table, under a key the store understands. */
  ghost predicate SettingsCoherent(settings: SettingsTable, cached: Data<UserSetting>) {
    forall user, key :: SettingCacheKey(user, key) in cached ==>
      && key != Unspecified && (user, key) in settings
      && cached[SettingCacheKey(user, key)].value == UserSetting(user, key, settings[(user, key)])
  }

  /** Storing the row in the table and in the cache keeps them equal under any eviction. */
  lemma PutUser(users: map<int, User>, cached: Data<User>, user: User, item: Item<User>, maxItems: int, after: Data<User>)
    requires UsersCoherent(users, cached) && item.value == user
    requires Stored(cached, UserKey(user.id), item, maxItems, after)
    ensures UsersCoherent(users[user.id := user], after)
  {
    forall id | UserKey(id) in after ensures id == user.id || UserKey(id) in cached {
      if UserKey(id) == UserKey(user.id) {
        ItoaRoundTrip(id);
        ItoaRoundTrip(user.id);
      }
    }
    forall id | UserKey(id) in after
      ensures id in users[user.id := user] && after[UserKey(id)].value == users[user.id := user][id]
    {
      ItoaRoundTrip(id);
      ItoaRoundTrip(user.id);
      assert after[UserKey(id)] == cached[UserKey(user.id) := item][UserKey(id)];
    }
  }

  lemma PutSetting(settings: SettingsTable, cached: Data<UserSetting>, s: UserSetting, item: Item<UserSetting>,
                   maxItems: int, after: Data<UserSetting>)
    requires SettingsCoherent(settings, cached) && item.value == s && s.key != Unspecified
    requires Stored(cached, SettingCacheKey(s.user, s.key), item, maxItems, after)
    ensures SettingsCoherent(settings[(s.user, s.key) := s.value], after)
  {
    var next := settings[(s.user, s.key) := s.value];
    forall user, key | SettingCacheKey(user, key) in after
      ensures key != Unspecified && (user, key) in next
      ensures after[SettingCacheKey(user, key)].value == UserSetting(user, key, next[(user, key)])
    {
      assert after[SettingCacheKey(user, key)] == cached[SettingCacheKey(s.user, s.key) := item][SettingCacheKey(user, key)];
      if SettingCacheKey(user, key) == SettingCacheKey(s.user, s.key) {
        SettingCacheKeyIsInjective(user, key, s.user, s.key);
      }
    }
  }

  class Store {
    var users: map<int, User>
    var settings: SettingsTable
    const userCache: Cache<User>
    const settingCache: Cache<UserSetting>

    ghost predicate Valid()
      reads this, userCache, settingCache
    {
      && userCache.Valid() && settingCache.Valid() && userCache as object != settingCache as object
      && UsersCoherent(users, userCache.data) && SettingsCoherent(settings, settingCache.data)
    }

    ghost function Footprint(): set<object> {
      {this, userCache, settingCache}
    }

    constructor (users: map<int, User>, settings: SettingsTable, maxItems: int, ttl: int)
      requires forall id :: id in users ==> users[id].id == id
      ensures Valid() && fresh(userCache) && fresh(settingCache)
      ensures this.users == users && this.settings == settings && userCache.data == map[]
      ensures userCache.maxItems == maxItems && userCache.defaultTtl == ttl
    {
      this.users, this.settings := users, settings;
      userCache := new Cache(maxItems, ttl);
      settingCache := new Cache(maxItems, ttl);
    }

    method CacheUser(user: User, now: int)
      requires userCache.Valid() && settingCache.Valid() && userCache as object != settingCache as object
      requires SettingsCoherent(settings, settingCache.data)
      requires user.id in users && users[user.id] == user
      requires UsersCoherent(users, userCache.data) || (exists before :: UsersCoherent(before, userCache.data) && users == before[user.id := user])
      modifies userCache
      ensures Valid()
      ensures Stored(old(userCache.data), UserKey(user.id), Item(user, now + userCache.defaultTtl), userCache.maxItems, userCache.data)
    {
      ghost var before :| UsersCoherent(before, userCache.data) && users == before[user.id := user] by {
        if UsersCoherent(users, userCache.data) {
          assert users == users[user.id := user];
        }
      }
      ghost var cached := userCache.data;
      userCache.Set(UserKey(user.id), user, now);
      PutUser(before, cached, user, Item(user, now + userCache.defaultTtl), userCache.maxItems, userCache.data);
    }

    method CacheSetting(s: UserSetting, now: int)
      requires userCache.Valid() && settingCache.Valid() && userCache as object != settingCache as object
      requires UsersCoherent(users, userCache.data) && s.key != Unspecified
      requires exists before :: SettingsCoherent(before, settingCache.data) && settings == before[(s.user, s.key) := s.value]
      modifies settingCache
      ensures Valid()
    {
      ghost var before :| SettingsCoherent(before, settingCache.data) && settings == before[(s.user, s.key) := s.value];
      ghost var cached := settingCache.data;
      settingCache.Set(SettingCacheKey(s.user, s.key), s, now);
      PutSetting(before, cached, s, Item(s, now + settingCache.defaultTtl), settingCache.maxItems, settingCache.data);
    }

    /** The database assigns an id that is not in use. */
    method CreateUser(create: User, now: int) returns (user: User)
      requires Valid() && create.id !in users
      modifies this`users, userCache
      ensures Valid() && user == create && users == old(users)[create.id := create]
      ensures Stored(old(userCache.data), UserKey(user.id), Item(user, now + userCache.defaultTtl), userCache.maxItems, userCache.data)
    {
      users := users[create.id := create];
      user := create;
      ghost var before := old(users);
      assert UsersCoherent(before, userCache.data);
      CacheUser(user, now);
    }

    /** Creates a user only on an instance without users. */
    method CreateUserIfNoUsers(create: User, now: int) returns (user: Option<User>)
      requires Valid() && create.id !in users
      modifies this`users, userCache
      ensures Valid() && (user.Some? <==> old(users) == map[])
      ensures user.Some? ==> user.value == create && users == map[create.id := create]
      ensures user.None? ==> users == old(users)
    {
      if |users| > 0 {
        return None;
      }
      var u := CreateUser(create, now);
      assert users == map[create.id := create];
      return Some(u);
    }

    method UpdateUserById(id: int, update: UpdateUser, now: int) returns (user: Option<User>)
      requires Valid()
      modifies this`users, userCache
      ensures Valid() && (user.Some? <==> id in old(users) && update != NOTHING)
      ensures user.Some? ==> users == old(users)[id := user.value]
      ensures user.Some? ==>
                var was, after := old(users)[id], user.value;
                && after.id == id && after.createdTs == was.createdTs
                && after.updatedTs == (if update.updatedTs.Some? then update.updatedTs.value else was.updatedTs)
                && after.rowStatus == (if update.rowStatus.Some? then update.rowStatus.value else was.rowStatus)
                && after.username == (if update.username.Some? then update.username.value else was.username)
                && after.role == (if update.role.Some? then update.role.value else was.role)
                && after.email == (if update.email.Some? then update.email.value else was.email)
                && after.nickname == (if update.nickname.Some? then update.nickname.value else was.nickname)
                && after.avatarUrl == (if update.avatarUrl.Some? then update.avatarUrl.value else was.avatarUrl)
                && after.description == (if update.description.Some? then update.description.value else was.description)
                && after.passwordHash == (if update.passwordHash.Some? then update.passwordHash.value else was.passwordHash)
      ensures user.Some? ==> users.Keys == old(users).Keys
      ensures user.Some? ==> forall other :: other in users && other != id ==> users[other] == old(users)[other]
      ensures user.None? ==> users == old(users)
    {
      if id !in users || update == NOTHING {
        return None;
      }
      var u := Updated(users[id], update);
      assert UsersCoherent(users, userCache.data);
      users := users[id := u];
      CacheUser(u, now);
      return Some(u);
    }

    /** All users that match, each cached on the way. */
    method ListUsers(find: FindUser, now: int) returns (list: seq<User>)
      requires Valid()
      modifies userCache
      ensures Valid()
      ensures forall u :: u in list <==> u.id in users && users[u.id] == u && UserMatches(u, find)
    {
      list := [];
      var left := users.Items;
      while left != {}
        invariant Valid() && left <= users.Items
        invariant forall u :: u in list <==> u.id in users && users[u.id] == u && UserMatches(u, find) && (u.id, u) !in left
        decreases left
      {
        var row :| row in left;
        left := left - {row};
        var id, u := row.0, row.1;
        assert id in users && users[id] == u;
        assert u.id == id;
        if UserMatches(u, find) {
          list := list + [u];
          CacheUser(u, now);
        }
      }
    }

    /** A read by id alone agrees with the table, hit or miss. A read by id and more is answered
        by a hit without looking at the other conditions, and only then may it return a user
        that does not match. */
    method GetUser(find: FindUser, now: int) returns (user: Option<User>)
      requires Valid()
      modifies userCache
      ensures Valid()
      ensures user.Some? ==> user.value.id in users && users[user.value.id] == user.value
      ensures user.None? ==> forall id :: id in users ==> !UserMatches(users[id], find)
      ensures var hit := find.id.Some? && UserKey(find.id.value) in old(userCache.data)
                         && now <= old(userCache.data)[UserKey(find.id.value)].expiration;
              user.Some? && !UserMatches(user.value, find) <==> hit && !UserMatches(users[find.id.value], find)
      ensures find.id.Some? && user.Some? ==> user.value.id == find.id.value
      ensures find.id.Some? && find.(id := None) == FindUser(None, [], [], None, None, None, None, None) ==>
                user == if find.id.value in users then Some(users[find.id.value]) else None
    {
      if find.id.Some? {
        ghost var before := userCache.data;
        var hit := userCache.Get(UserKey(find.id.value), now);
        assert UsersCoherent(users, userCache.data);
        if hit.Some? {
          return Some(hit.value);
        }
      }
      var list := ListUsers(find, now);
      if |list| == 0 {
        forall id | id in users ensures !UserMatches(users[id], find) {
          assert users[id] !in list;
        }
        return None;
      }
      var u := list[0];
      assert u in list;
      CacheUser(u, now);
      return Some(u);
    }

    /** The keys of a user's settings, which the database deletion reports. */
    method SettingKeysOf(id: int) returns (settingKeys: seq<SettingKey>)
      ensures forall k :: k in settingKeys <==> (id, k) in settings
    {
      settingKeys := [];
      var left := settings.Keys;
      while left != {}
        invariant left <= settings.Keys
        invariant forall k :: k in settingKeys <==> (id, k) in settings && (id, k) !in left
        decreases left
      {
        var k :| k in left;
        left := left - {k};
        if k.0 == id {
          assert k == (id, k.1);
          settingKeys := settingKeys + [k.1];
        }
      }
    }

    method ForgetSettings(list: seq<(int, SettingKey)>)
      requires settingCache.Valid()
      modifies settingCache
      ensures settingCache.Valid() && settingCache.data == old(settingCache.data) - CacheKeysOf(list)
    {
      hide CacheKeysOf;
      NoCacheKeys();
      assert settingCache.data - {} == settingCache.data && list[..0] == [];
      for i := 0 to |list|
        invariant settingCache.Valid() && settingCache.data == old(settingCache.data) - CacheKeysOf(list[..i])
      {
        OneMoreCacheKey(list, i);
        RemoveOneMore(old(settingCache.data), CacheKeysOf(list[..i]), SettingCacheKey(list[i].0, list[i].1));
        settingCache.Delete(SettingCacheKey(list[i].0, list[i].1));
      }
      assert list[..|list|] == list;
    }

    /** Deletes the user with all settings and forgets both in the caches. */
    method DeleteUser(id: int) returns (settingKeys: seq<SettingKey>)
      requires Valid()
      modifies Footprint()
      ensures Valid() && users == old(users) - {id}
      ensures settings == Apply(old(settings), DeleteUserRows(id))
      ensures forall k :: k in settings <==> k in old(settings) && k.0 != id
      ensures forall k :: k in settings ==> settings[k] == old(settings)[k]
    {
      hide UsersCoherent, SettingsCoherent, WithUser, CacheKeysOf;
      settingKeys := SettingKeysOf(id);
      users := users - {id};
      settings := map k | k in settings && k.0 != id :: settings[k];
      userCache.Delete(UserKey(id));
      UserForgotten(old(users), old(userCache.data), id);
      var list := WithUser(id, settingKeys);
      ForgetSettings(list);
      UserSettingsForgotten(old(settings), old(settingCache.data), id, settingKeys);
    }

    method UpsertUserSetting(s: UserSetting, now: int) returns (r: Option<UserSetting>)
      requires Valid()
      modifies this`settings, settingCache
      ensures Valid() && (r.Some? <==> s.key != Unspecified)
      ensures r.Some? ==> r.value == s.(value := SavedValue(s.key, s.value)) && settings == old(settings)[(s.user, s.key) := r.value.value]
      ensures r.None? ==> settings == old(settings)
      ensures r.Some? && s.value.Tokens? == (s.key == RefreshTokens) ==> r.value == s
      ensures settings == Apply(old(settings), Upsert(s))
    {
      if s.key == Unspecified {
        return None;
      }
      var stored := s.(value := SavedValue(s.key, s.value));
      assert SettingsCoherent(settings, settingCache.data);
      settings := settings[(s.user, s.key) := stored.value];
      CacheSetting(stored, now);
      return Some(stored);
    }

    /** All settings that match and whose key the store understands. */
    method ListUserSettings(find: FindSetting, now: int) returns (list: seq<UserSetting>)
      requires Valid()
      modifies settingCache
      ensures Valid()
      ensures forall s :: s in list <==> Listed(settings, find, s)
      ensures forall i, j :: 0 <= i < j < |list| ==> list[i] != list[j]
    {
      list := [];
      var left := settings.Items;
      while left != {}
        invariant Valid() && left <= settings.Items
        invariant forall s :: s in list <==> Listed(settings, find, s) && ((s.user, s.key), s.value) !in left
        invariant forall i, j :: 0 <= i < j < |list| ==> list[i] != list[j]
        decreases left
      {
        var row :| row in left;
        left := left - {row};
        var s := UserSetting(row.0.0, row.0.1, row.1);
        if SettingMatches(s.user, s.key, find) && s.key != Unspecified {
          assert settings == settings[(s.user, s.key) := s.value];
          CacheSetting(s, now);
          list := list + [s];
        }
      }
    }

    /** A read agrees with the table, hit or miss, and changes no row: it returns the one setting
        that matches, none when there is none, and an error exactly when there are several. */
    method GetUserSetting(find: FindSetting, now: int) returns (r: Result<Option<UserSetting>>)
      requires Valid()
      modifies settingCache
      ensures Valid()
      ensures r.Ok? && r.value.None? <==> forall s :: !Listed(settings, find, s)
      ensures r.Ok? && r.value.Some? ==> forall s :: Listed(settings, find, s) <==> s == r.value.value
      ensures r.Err? <==> exists s, s' :: s != s' && Listed(settings, find, s) && Listed(settings, find, s')
    {
      if find.user.Some? {
        var user := find.user.value;
        var hit := settingCache.Get(SettingCacheKey(user, find.key), now);
        assert SettingsCoherent(settings, settingCache.data);
        if hit.Some? {
          assert Listed(settings, find, hit.value);
          return Ok(hit);
        }
      }
      var list := ListUserSettings(find, now);
      if |list| == 0 {
        forall s ensures !Listed(settings, find, s) {
          assert s !in list;
        }
        return Ok(None);
      }
      assert list[0] in list;
      if |list| > 1 {
        assert list[1] in list;
        return Err("expected 1 user setting");
      }
      assert list == [list[0]];
      CacheSetting(list[0], now) by {
        assert settings == settings[(list[0].user, list[0].key) := list[0].value];
      }
      return Ok(Some(list[0]));
    }

    /** Deletes the matching settings, those with unknown keys included, and forgets them. */
    method DeleteUserSettings(find: FindSetting, now: int)
      requires Valid()
      modifies this`settings, settingCache
      ensures Valid() && settings == Apply(old(settings), Delete(find))
      ensures forall k :: k in settings <==>
                k in old(settings)
                && !((find.key != Unspecified ==> find.key == k.1) && (find.user.Some? ==> find.user.value == k.0))
      ensures forall k :: k in settings ==> settings[k] == old(settings)[k]
    {
      hide UsersCoherent, SettingsCoherent, CacheKeysOf;
      var existing := ListUserSettings(find, now);
      settings := DeleteSettings(settings, find);
      var list := seq(|existing|, i requires 0 <= i < |existing| => (existing[i].user, existing[i].key));
      ghost var cached := settingCache.data;
      ForgetSettings(list);
      forall user, key | (user, key) in old(settings) && (user, key) !in settings && key != Unspecified
        ensures (user, key) in list
      {
        var s := UserSetting(user, key, old(settings)[(user, key)]);
        assert Listed(old(settings), find, s);
        var i :| 0 <= i < |existing| && existing[i] == s;
        assert list[i] == (user, key);
      }
      SettingsForgotten(old(settings), cached, settings, list);
    }

    method GetUserRefreshTokens(user: int, now: int) returns (tokens: seq<Token>)
      requires Valid() && WellTyped(settings)
      modifies settingCache
      ensures Valid() && tokens == TokensOf(settings, user)
    {
      var r := GetUserSetting(FindSetting(Some(user), RefreshTokens), now);
      OneRefreshTokenRow(settings, user);
      if r.value.None? {
        assert (user, RefreshTokens) in settings ==>
            Listed(settings, FindSetting(Some(user), RefreshTokens), UserSetting(user, RefreshTokens, settings[(user, RefreshTokens)]));
        return [];
      }
      assert Listed(settings, FindSetting(Some(user), RefreshTokens), r.value.value);
      return r.value.value.value.tokens;
    }

    method AddUserRefreshToken(user: int, token: Token, now: int)
      requires Valid() && WellTyped(settings)
      modifies this`settings, settingCache
      ensures Valid() && settings == Apply(old(settings), AddToken(user, token))
      ensures settings == old(settings)[(user, RefreshTokens) := Tokens(TokensOf(old(settings), user) + [token])]
    {
      var tokens := GetUserRefreshTokens(user, now);
      var _ := UpsertUserSetting(UserSetting(user, RefreshTokens, Tokens(tokens + [token])), now);
    }

    method RemoveUserRefreshToken(user: int, tokenId: string, now: int)
      requires Valid() && WellTyped(settings)
      modifies this`settings, settingCache
      ensures Valid() && settings == Apply(old(settings), RemoveToken(user, tokenId))
      ensures forall t :: t in TokensOf(settings, user) <==> t in TokensOf(old(settings), user) && t.id != tokenId
      ensures forall k :: k != (user, RefreshTokens) ==>
                (k in settings <==> k in old(settings)) && (k in settings ==> settings[k] == old(settings)[k])
    {
      var existing := GetUserRefreshTokens(user, now);
      WithoutRemovesOnly(existing, tokenId);
      var tokens: seq<Token> := [];
      for i := 0 to |existing|
        invariant Valid() && settings == old(settings)
        invariant tokens == Without(existing[..i], tokenId)
      {
        WithoutOneMore(existing, i, tokenId);
        if existing[i].id != tokenId {
          tokens := tokens + [existing[i]];
        }
      }
      assert existing[..|existing|] == existing;
      var _ := UpsertUserSetting(UserSetting(user, RefreshTokens, Tokens(tokens)), now);
    }

    method GetUserRefreshTokenById(user: int, tokenId: string, now: int) returns (r: Option<Token>)
      requires Valid() && WellTyped(settings)
      modifies settingCache
      ensures Valid() && (r.Some? <==> HasToken(settings, user, tokenId))
      ensures r.Some? ==> r.value in TokensOf(settings, user) && r.value.id == tokenId
    {
      hide UsersCoherent, SettingsCoherent, WellTyped, TokensOf;
      var tokens := GetUserRefreshTokens(user, now);
      for i := 0 to |tokens|
        invariant Valid() && forall j :: 0 <= j < i ==> tokens[j].id != tokenId
      {
        if tokens[i].id == tokenId {
          assert tokens[i] in tokens;
          return Some(tokens[i]);
        }
      }
      return None;
    }
  }

  const ALICE := User(1, "NORMAL", 0, 0, "alice", "USER", "", "", "", "", "")
  const BOB_AS_ONE := FindUser(Some(1), [], [], None, Some("bob"), None, None, None)

  /** A fresh store that has just created Alice with id 1 answers the question for user 1 named
      Bob with Alice. */
  method OtherConditionsAreIgnored() returns (user: Option<User>)
    ensures user == Some(ALICE) && !UserMatches(ALICE, BOB_AS_ONE)
  {
    var store := new Store(map[], map[], 100, 60);
    var _ := store.CreateUser(ALICE, 0);
    assert UserKey(1) in store.userCache.data && store.userCache.data[UserKey(1)].expiration == 60 by {
      OneItemIsNotEvicted(UserKey(1), Item(ALICE, 60), store.userCache.data);
    }
    user := store.GetUser(BOB_AS_ONE, 1);
  }

  lemma OneItemIsNotEvicted(key: string, item: Item<User>, after: Data<User>)
    requires Stored(map[], key, item, 100, after)
    ensures after == map[key := item]
  {
    assert |map[key := item]| == 1;
  }

  ghost predicate Listed(settings: SettingsTable, find: FindSetting, s: UserSetting) {
    && (s.user, s.key) in settings && settings[(s.user, s.key)] == s.value
    && SettingMatches(s.user, s.key, find) && s.key != Unspecified
  }

  lemma ListedMeans(settings: SettingsTable, find: FindSetting, s: UserSetting)
    ensures Listed(settings, find, s) <==>
            && (s.user, s.key) in settings && settings[(s.user, s.key)] == s.value && s.key != Unspecified
            && (find.key != Unspecified ==> find.key == s.key) && (find.user.Some? ==> find.user.value == s.user)
  {
  }

  lemma OneRefreshTokenRow(settings: SettingsTable, user: int)
    ensures forall s :: Listed(settings, FindSetting(Some(user), RefreshTokens), s) <==>
                        && (user, RefreshTokens) in settings
                        && s == UserSetting(user, RefreshTokens, settings[(user, RefreshTokens)])
  {
  }

  function DeleteSettings(settings: SettingsTable, find: FindSetting): SettingsTable {
    map k | k in settings && !SettingMatches(k.0, k.1, find) :: settings[k]
  }

  function CacheKeysOf(list: seq<(int, SettingKey)>): set<string> {
    set k | k in list :: SettingCacheKey(k.0, k.1)
  }

  lemma NoCacheKeys()
    ensures CacheKeysOf([]) == {}
  {
  }

  lemma OneMoreCacheKey(list: seq<(int, SettingKey)>, i: nat)
    requires i < |list|
    ensures CacheKeysOf(list[..i + 1]) == CacheKeysOf(list[..i]) + {SettingCacheKey(list[i].0, list[i].1)}
  {
    assert list[..i + 1] == list[..i] + [list[i]];
  }

  lemma UserForgotten(users: map<int, User>, cached: Data<User>, id: int)
    requires UsersCoherent(users, cached)
    ensures UsersCoherent(users - {id}, cached - {UserKey(id)})
  {
  }

  /** Dropping rows from the table keeps the caches coherent once those rows are forgotten. */
  lemma SettingsForgotten(settings: SettingsTable, cached: Data<UserSetting>, left: SettingsTable, list: seq<(int, SettingKey)>)
    requires SettingsCoherent(settings, cached)
    requires forall k :: k in left ==> k in settings && left[k] == settings[k]
    requires forall user, key :: (user, key) in settings && (user, key) !in left && key != Unspecified ==> (user, key) in list
    ensures SettingsCoherent(left, cached - CacheKeysOf(list))
  {
    forall user, key | SettingCacheKey(user, key) in cached - CacheKeysOf(list) ensures (user, key) in left {
      assert (user, key) in list ==> SettingCacheKey((user, key).0, (user, key).1) in CacheKeysOf(list);
    }
  }

  function WithUser(id: int, keys: seq<SettingKey>): seq<(int, SettingKey)> {
    seq(|keys|, i requires 0 <= i < |keys| => (id, keys[i]))
  }

  lemma UserSettingsForgotten(settings: SettingsTable, cached: Data<UserSetting>, id: int, keys: seq<SettingKey>)
    requires SettingsCoherent(settings, cached) && forall k :: (id, k) in settings ==> k in keys
    ensures SettingsCoherent(Apply(settings, DeleteUserRows(id)), cached - CacheKeysOf(WithUser(id, keys)))
  {
    forall k | (id, k) in settings ensures (id, k) in WithUser(id, keys) {
      var i :| 0 <= i < |keys| && keys[i] == k;
      assert WithUser(id, keys)[i] == (id, k);
    }
    SettingsForgotten(settings, cached, Apply(settings, DeleteUserRows(id)), WithUser(id, keys));
  }

  // Refresh tokens over whole runs.

  function Without(tokens: seq<Token>, id: string): seq<Token> {
    if |tokens| == 0 then []
    else
      var n := |tokens| - 1;
      Without(tokens[..n], id) + if tokens[n].id != id then [tokens[n]] else []
  }

  lemma WithoutOneMore(tokens: seq<Token>, i: nat, id: string)
    requires i < |tokens|
    ensures Without(tokens[..i + 1], id) == Without(tokens[..i], id) + if tokens[i].id != id then [tokens[i]] else []
  {
    assert tokens[..i + 1][..i] == tokens[..i];
  }

  lemma {:induction false} WithoutRemovesOnly(tokens: seq<Token>, id: string)
    ensures forall t :: t in Without(tokens, id) <==> t in tokens && t.id != id
  {
    if |tokens| > 0 {
      var n := |tokens| - 1;
      WithoutRemovesOnly(tokens[..n], id);
      assert tokens == tokens[..n] + [tokens[n]];
    }
  }

  /** Rows are written through UpsertUserSetting, so a refresh token row holds tokens. */
  predicate WellTyped(settings: SettingsTable) {
    forall k :: k in settings && k.1 == RefreshTokens ==> settings[k].Tokens?
  }

  function TokensOf(settings: SettingsTable, user: int): seq<Token> {
    if (user, RefreshTokens) in settings && settings[(user, RefreshTokens)].Tokens?
    then settings[(user, RefreshTokens)].tokens else []
  }

  ghost predicate HasToken(settings: SettingsTable, user: int, id: string) {
    exists t :: t in TokensOf(settings, user) && t.id == id
  }

  datatype StoreOperation =
    | AddToken(user: int, token: Token)
    | RemoveToken(user: int, id: string)
    | Upsert(setting: UserSetting)
    | Delete(find: FindSetting)
    | DeleteUserRows(user: int)

  /** The effect of each store operation on the settings table. */
  function Apply(settings: SettingsTable, op: StoreOperation): SettingsTable {
    match op
    case AddToken(user, token) => settings[(user, RefreshTokens) := Tokens(TokensOf(settings, user) + [token])]
    case RemoveToken(user, id) => settings[(user, RefreshTokens) := Tokens(Without(TokensOf(settings, user), id))]
    case Upsert(s) => if s.key == Unspecified then settings else settings[(s.user, s.key) := SavedValue(s.key, s.value)]
    case Delete(find) => DeleteSettings(settings, find)
    case DeleteUserRows(user) => map k | k in settings && k.0 != user :: settings[k]
  }

  function Run(ops: seq<StoreOperation>): SettingsTable {
    if |ops| == 0 then map[] else Apply(Run(ops[..|ops| - 1]), ops[|ops| - 1])
  }

  ghost predicate Adds(op: StoreOperation, user: int, id: string) {
    || (op.AddToken? && op.user == user && op.token.id == id)
    || (op.Upsert? && op.setting.user == user && op.setting.key == RefreshTokens && op.setting.value.Tokens?
        && exists t :: t in op.setting.value.tokens && t.id == id)
  }

  /** Removes the token, or the whole row it is in. */
  ghost predicate Drops(op: StoreOperation, user: int, id: string) {
    || (op.RemoveToken? && op.user == user && op.id == id)
    || (op.Upsert? && op.setting.user == user && op.setting.key == RefreshTokens && !Adds(op, user, id))
    || (op.Delete? && SettingMatches(user, RefreshTokens, op.find))
    || (op.DeleteUserRows? && op.user == user)
  }

  /** A refresh token is found by its id exactly when some operation added it and no later one
      removed it, overwrote or deleted the row, or deleted the user. */
  lemma {:induction false} TokenFoundExactly(ops: seq<StoreOperation>, user: int, id: string)
    ensures WellTyped(Run(ops))
    ensures HasToken(Run(ops), user, id) <==> AddedForGood(ops, user, id)
  {
    if |ops| > 0 {
      hide Adds, Drops, HasToken, WellTyped, Apply, AddedForGood;
      var n := |ops| - 1;
      TokenFoundExactly(ops[..n], user, id);
      ApplyToken(Run(ops[..n]), ops[n], user, id);
      assert ops == ops[..n] + [ops[n]];
      AddedByLast(ops[..n], ops[n], user, id);
    }
  }

  /** Some operation added the token and no later one dropped it. */
  ghost predicate AddedForGood(ops: seq<StoreOperation>, user: int, id: string) {
    exists i :: 0 <= i < |ops| && Adds(ops[i], user, id) && forall j :: i < j < |ops| ==> !Drops(ops[j], user, id)
  }

  lemma AddedByLast(before: seq<StoreOperation>, op: StoreOperation, user: int, id: string)
    ensures AddedForGood(before + [op], user, id) <==>
            Adds(op, user, id) || (AddedForGood(before, user, id) && !Drops(op, user, id))
  {
    hide Adds, Drops;
    var n, ops := |before|, before + [op];
    assert ops[n] == op;
    if AddedForGood(before, user, id) && !Drops(op, user, id) {
      var i :| 0 <= i < n && Adds(before[i], user, id) && forall j :: i < j < n ==> !Drops(before[j], user, id);
      assert Adds(ops[i], user, id);
      forall j | i < j < |ops| ensures !Drops(ops[j], user, id) {
        assert j < n ==> ops[j] == before[j];
      }
    }
    if i :| 0 <= i < |ops| && Adds(ops[i], user, id) && forall j :: i < j < |ops| ==> !Drops(ops[j], user, id) {
      if i < n {
        assert Adds(before[i], user, id) && !Drops(ops[n], user, id);
        forall j | i < j < n ensures !Drops(before[j], user, id) {
          assert before[j] == ops[j];
        }
      }
    }
  }

  lemma ApplyToken(settings: SettingsTable, op: StoreOperation, user: int, id: string)
    requires WellTyped(settings)
    ensures WellTyped(Apply(settings, op))
    ensures HasToken(Apply(settings, op), user, id) <==>
            Adds(op, user, id) || (HasToken(settings, user, id) && !Drops(op, user, id))
  {
    var before, after := TokensOf(settings, user), TokensOf(Apply(settings, op), user);
    match op
    case AddToken(u, token) =>
      if u == user {
        assert forall t :: t in after <==> t in before || t == token;
      } else {
        assert after == before;
      }
    case RemoveToken(u, tokenId) =>
      WithoutRemovesOnly(TokensOf(settings, u), tokenId);
      assert u != user ==> after == before;
    case Upsert(s) => assert s.user != user || s.key != RefreshTokens ==> after == before;
    case Delete(find) => assert !SettingMatches(user, RefreshTokens, find) ==> after == before;
    case DeleteUserRows(u) => assert u != user ==> after == before;
  }
}
