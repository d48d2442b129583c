/** The authentication service as an object: two caches it updates in place in front of the stored rows. */
module AuthServices {
  import opened Auth
  import opened AuthOutcomes
  import opened Options

  lemma Member<T>(s: set<T>) returns (x: T)
    requires s != {}
    ensures x in s
  {
    x :| x in s;
  }

  /** The loop ends with the first refused field. */
  lemma {:induction false} FailsAt(env: Env, user: User, fields: seq<UserField>, i: nat)
    requires i < |fields| && ApplyFields(env, user, fields[..i + 1]).1.Some?
    ensures ApplyFields(env, user, fields) == ApplyFields(env, user, fields[..i + 1])
    decreases |fields|
  {
    if i + 1 < |fields| {
      var init := fields[..|fields| - 1];
      assert init[..i + 1] == fields[..i + 1];
      FailsAt(env, user, init, i);
    } else {
      assert fields[..i + 1] == fields;
    }
  }

  lemma {:induction false} KeyFailsAt(env: Env, rows: Rows, key: APIKey, fields: seq<KeyField>, i: nat, now: int)
    requires i < |fields| && ApplyKeyFields(env, rows, key, fields[..i + 1], now).1.Some?
    ensures ApplyKeyFields(env, rows, key, fields, now) == ApplyKeyFields(env, rows, key, fields[..i + 1], now)
    decreases |fields|
  {
    if i + 1 < |fields| {
      var init := fields[..|fields| - 1];
      assert init[..i + 1] == fields[..i + 1];
      KeyFailsAt(env, rows, key, init, i, now);
    } else {
      assert fields[..i + 1] == fields;
    }
  }

  class AuthService {
    const env: Env
    const cfg: Config
    var rows: Rows
    var keyCache: map<Hash, APIKey>
    var credCache: map<Hash, Entry>

    function Snapshot(): State
      reads this
    {
      State(rows, keyCache, credCache)
    }

    ghost predicate Valid(now: int)
      reads this
    {
      Steady(Snapshot(), now)
    }

    constructor (env: Env, cfg: Config, rows: Rows, now: int)
      requires RowsOk(rows)
      ensures this.env == env && this.cfg == cfg && Valid(now) && Snapshot() == Started(cfg, rows)
    {
      this.env, this.cfg, this.rows := env, cfg, rows;
      keyCache, credCache := map[], map[];
      new;
      if cfg.keyInterval > 0 {
        RefreshAPIKeyCache(true, now);
      }
    }

    method ListAPIKeys() returns (newKeys: map<Hash, APIKey>)
      requires RowsOk(rows)
      ensures newKeys == Refreshed(rows)
    {
      newKeys := map[];
      var pending := rows.keys.Keys;
      while pending != {}
        invariant pending <= rows.keys.Keys
        invariant forall h | h in newKeys :: h in Refreshed(rows) && newKeys[h] == Refreshed(rows)[h]
        invariant forall id | id in rows.keys :: id in pending || rows.keys[id].hash in newKeys
      {
        ghost var some := Member(pending);
        var id: int :| id in pending;
        newKeys := newKeys[rows.keys[id].hash := rows.keys[id]];
        pending := pending - {id};
      }
      forall h | h in Refreshed(rows)
        ensures h in newKeys
      {
        var id := rows.keysByHash[h];
        assert id in rows.keys && id !in pending;
        assert rows.keys[id].hash in newKeys;
        assert rows.keys[id].hash == h;
      }
    }

    method DropUnlisted(newKeys: map<Hash, APIKey>)
      modifies this`keyCache
      ensures forall h | h in keyCache :: h in newKeys
    {
      var cached := keyCache.Keys;
      while cached != {}
        invariant forall h | h in keyCache :: h in newKeys || h in cached
      {
        var h :| h in cached;
        if h !in newKeys {
          keyCache := keyCache - {h};
        }
        cached := cached - {h};
      }
    }

    method StoreListed(newKeys: map<Hash, APIKey>)
      requires forall h | h in keyCache :: h in newKeys
      modifies this`keyCache
      ensures keyCache == newKeys
    {
      var todo := newKeys.Keys;
      while todo != {}
        invariant todo <= newKeys.Keys
        invariant forall h | h in keyCache :: h in newKeys
        invariant forall h | h in newKeys && h !in todo :: h in keyCache && keyCache[h] == newKeys[h]
      {
        var h :| h in todo;
        keyCache := keyCache[h := newKeys[h]];
        todo := todo - {h};
      }
    }

    /** Rebuild the cache from the listed rows: drop what is not listed, store the rest. */
    method RefreshAPIKeyCache(listed: bool, now: int)
      requires cfg.keyInterval > 0 && Valid(now)
      modifies this`keyCache
      ensures Valid(now) && Snapshot() == AfterRefresh(cfg, old(Snapshot()), listed).0
    {
      StepSteady(env, cfg, Snapshot(), RefreshCache(listed), now, now);
      if !listed {
        return;
      }
      var newKeys := ListAPIKeys();
      DropUnlisted(newKeys);
      StoreListed(newKeys);
    }

    /** Scan the cache in any order and delete the first entry with this key ID. */
    method InvalidateAPIKeyCache(id: int)
      requires KeysFresh(Snapshot())
      modifies this`keyCache
      ensures keyCache == DropKey(old(keyCache), id)
    {
      var cached := keyCache.Keys;
      while cached != {}
        invariant keyCache == old(keyCache) && cached <= keyCache.Keys
        invariant forall h | h in keyCache && h !in cached :: keyCache[h].id != id
      {
        var h :| h in cached;
        if keyCache[h].id == id {
          keyCache := keyCache - {h};
          assert forall i | i in old(keyCache) && i != h :: old(keyCache)[i].id != id;
          return;
        }
        cached := cached - {h};
      }
      assert keyCache == DropKey(keyCache, id);
    }

    /** Scan the whole cache and delete every entry of this user. */
    method InvalidateUserCredCacheByID(userID: int)
      modifies this`credCache
      ensures credCache == DropUser(old(credCache), userID)
    {
      var cached := credCache.Keys;
      while cached != {}
        invariant cached <= credCache.Keys <= old(credCache).Keys
        invariant forall h | h in credCache :: credCache[h] == old(credCache)[h]
        invariant forall h | h in credCache && h !in cached :: credCache[h].user.id != userID
        invariant forall h | h in old(credCache) && h !in credCache :: old(credCache)[h].user.id == userID
        decreases |cached|
      {
        var h :| h in cached;
        if credCache[h].user.id == userID {
          credCache := credCache - {h};
        }
        cached := cached - {h};
      }
    }

    method CreateUser(username: string, email: string, newHash: Option<string>, role: string, enabled: bool, now: int)
      returns (answer: Answer)
      requires Valid(now)
      modifies this
      ensures Valid(now)
      ensures (Snapshot(), answer) == AfterCreateUser(env, old(Snapshot()), username, email, newHash, role, enabled)
    {
      StepSteady(env, cfg, Snapshot(), Op.CreateUser(username, email, newHash, role, enabled), now, now);
      if !env.validRole(role) {
        return Failed(InvalidRole);
      }
      if newHash.None? {
        return Failed(HashFailed);
      }
      if username in rows.usersByName {
        return Failed(UserExists);
      }
      var user := User(rows.nextUserID, username, email, newHash.value, role, enabled);
      rows := InsertUser(rows, user);
      return UserOk(user);
    }

    /** The update loop; it stops at the first field that is refused. */
    method ApplyUserFields(record: User, fields: seq<UserField>) returns (user: User, error: Option<AuthError>)
      ensures (user, error) == ApplyFields(env, record, fields)
    {
      user, error := record, None;
      for i := 0 to |fields|
        invariant (user, None) == ApplyFields(env, record, fields[..i])
        invariant error == None
      {
        assert fields[..i + 1][..i] == fields[..i];
        match fields[i] {
          case Email(email) => user := user.(email := email);
          case Password(newHash) =>
            if newHash.None? {
              error := Some(HashFailed);
            } else {
              user := user.(passwordHash := newHash.value);
            }
          case UserRole(role) =>
            if !env.validRole(role) {
              error := Some(InvalidRole);
            } else {
              user := user.(role := role);
            }
          case UserEnabled(on) => user := user.(enabled := on);
        }
        if error.Some? {
          FailsAt(env, record, fields, i);
          return;
        }
      }
      assert fields[..|fields|] == fields;
    }

    /** An update that is refused half-way has changed the record it works on, which may be the stored one. */
    method UpdateUser(id: int, fields: seq<UserField>, now: int) returns (answer: Answer)
      requires Valid(now)
      modifies this
      ensures Valid(now) && (Snapshot(), answer) == AfterUpdateUser(env, old(Snapshot()), id, fields)
    {
      StepSteady(env, cfg, Snapshot(), Op.UpdateUser(id, fields), now, now);
      if id !in rows.users {
        return Failed(UserNotFound);
      }
      var user, error := ApplyUserFields(rows.users[id], fields);
      if error.Some? {
        if env.sharing {
          PublishUserRecord(user);
        }
        return Failed(error.value);
      }
      rows := rows.(users := rows.users[user.id := user]);
      InvalidateUserCredCacheByID(id);
      return UserOk(user);
    }

    /** The stored record is the one that cached credentials hold. */
    method PublishUserRecord(user: User)
      modifies this`rows, this`credCache
      ensures Snapshot() == PublishUser(old(Snapshot()), user)
    {
      rows, credCache := PublishUser(Snapshot(), user).rows, PublishUser(Snapshot(), user).credCache;
    }

    method DeleteUser(id: int, now: int) returns (answer: Answer)
      requires Valid(now)
      modifies this
      ensures Valid(now) && (Snapshot(), answer) == AfterDeleteUser(old(Snapshot()), id)
    {
      StepSteady(env, cfg, Snapshot(), Op.DeleteUser(id), now, now);
      InvalidateUserCredCacheByID(id);
      if id !in rows.users {
        return Failed(UserNotFound);
      }
      rows := RemoveUser(rows, id);
      return Done;
    }

    method ChangePassword(id: int, oldPassword: string, newHash: Option<string>, now: int) returns (answer: Answer)
      requires Valid(now)
      modifies this
      ensures Valid(now) && (Snapshot(), answer) == AfterChangePassword(env, old(Snapshot()), id, oldPassword, newHash)
    {
      StepSteady(env, cfg, Snapshot(), Op.ChangePassword(id, oldPassword, newHash), now, now);
      if id !in rows.users {
        return Failed(UserNotFound);
      }
      var user := rows.users[id];
      if !env.matches(user.passwordHash, oldPassword) {
        return Failed(PermissionDenied);
      }
      if newHash.None? {
        return Failed(HashFailed);
      }
      user := user.(passwordHash := newHash.value);
      rows := rows.(users := rows.users[user.id := user]);
      InvalidateUserCredCacheByID(id);
      return Done;
    }

    method ValidateCredentials(username: string, password: string, now: int) returns (answer: Answer)
      modifies this
      ensures (Snapshot(), answer) == AfterValidateCredentials(env, cfg, old(Snapshot()), username, password, now)
      ensures old(Valid(now)) && ':' !in username ==> Valid(now)
      ensures old(Coherent(env, cfg, Snapshot(), now)) && ':' !in username ==>
                answer == CheckCredentials(env, old(rows), username, password)
      ensures old(Coherent(env, cfg, Snapshot(), now)) && ':' !in username ==>
                forall user :: answer == UserOk(user) <==>
                  IsUserFor(old(rows), username, user) && user.enabled && env.matches(user.passwordHash, password)
    {
      if Valid(now) && ':' !in username {
        CheckSteady(env, cfg, Snapshot(), username, password, now);
      }
      if Coherent(env, cfg, Snapshot(), now) && ':' !in username {
        CredentialsFollowRows(env, cfg, Snapshot(), username, password, now);
        forall user
          ensures AfterValidateCredentials(env, cfg, Snapshot(), username, password, now).1 == UserOk(user) <==>
                  IsUserFor(rows, username, user) && user.enabled && env.matches(user.passwordHash, password)
        {
          CredentialsAccepted(env, cfg, Snapshot(), username, password, now, user);
        }
      }
      var cacheKey := CredKey(username, password);
      if cacheKey in credCache {
        var entry := credCache[cacheKey];
        if now - entry.verifiedAt < cfg.userTTL {
          if entry.user.enabled {
            return UserOk(entry.user);
          }
          credCache := credCache - {cacheKey};
          return Failed(UserDisabled);
        }
        credCache := credCache - {cacheKey};
      }
      assert credCache == old(credCache) - {cacheKey};
      var user := UserByName(rows, username);
      if user.None? {
        return Failed(UserNotFound);
      }
      if !user.value.enabled {
        return Failed(UserDisabled);
      }
      if !env.matches(user.value.passwordHash, password) {
        return Failed(UserNotFound);
      }
      credCache := credCache[cacheKey := Entry(user.value, now)];
      assert credCache == old(credCache)[cacheKey := Entry(user.value, now)];
      return UserOk(user.value);
    }

    method CreateAPIKey(userID: int, name: string, role: string, expiresAt: int, raw: string, now: int) returns (answer: Answer)
      requires Valid(now)
      modifies this
      ensures Valid(now)
      ensures (Snapshot(), answer) == AfterCreateAPIKey(env, cfg, old(Snapshot()), userID, name, role, expiresAt, raw, now)
    {
      CreateKeySteady(env, cfg, Snapshot(), userID, name, role, expiresAt, raw, now);
      if !env.validRole(role) {
        return Failed(InvalidRole);
      }
      if name == "" {
        return Failed(NameRequired);
      }
      if userID <= 0 {
        return Failed(UserIDRequired);
      }
      if expiresAt < now {
        return Failed(ExpiryInPast);
      }
      if NameTaken(rows, userID, name, None) {
        return Failed(KeyNameExists);
      }
      if Hash(raw) in rows.keysByHash {
        return Failed(KeyExists);
      }
      var key := APIKey(rows.nextKeyID, userID, Hash(raw), name, role, true, expiresAt);
      rows := InsertKey(rows, key);
      if cfg.keyInterval > 0 {
        keyCache := keyCache[key.hash := key];
      }
      return KeyOk(key);
    }

    method ValidateAPIKey(raw: string, now: int) returns (answer: Answer)
      requires Valid(now)
      modifies this
      ensures Valid(now)
      ensures (Snapshot(), answer) == AfterValidateAPIKey(cfg, old(Snapshot()), raw, now)
      ensures answer == CheckKey(old(rows), raw, now)
      ensures forall key :: answer == KeyOk(key) <==> IsKeyFor(old(rows), raw, key) && key.enabled && now <= key.expiresAt
    {
      forall key
        ensures AfterValidateAPIKey(cfg, Snapshot(), raw, now).1 == KeyOk(key) <==>
                IsKeyFor(rows, raw, key) && key.enabled && now <= key.expiresAt
      {
        KeyAccepted(cfg, Snapshot(), raw, now, key);
      }
      StepSteady(env, cfg, Snapshot(), Op.ValidateAPIKey(raw), now, now);
      KeyFollowsRows(env, cfg, Snapshot(), raw, now);
      var hash := Hash(raw);
      var record: Option<APIKey> := None;
      if cfg.keyInterval > 0 {
        if hash in keyCache {
          record := Some(keyCache[hash]);
        }
      }
      if record.None? {
        record := KeyByHash(rows, hash);
        if record.None? {
          return Failed(KeyNotFound);
        }
        if cfg.keyInterval > 0 {
          keyCache := keyCache[hash := record.value];
        }
      }
      if !record.value.enabled {
        return Failed(KeyDisabled);
      }
      if record.value.expiresAt < now {
        return Failed(KeyExpired);
      }
      return KeyOk(record.value);
    }

    method ApplyFieldsToKey(record: APIKey, fields: seq<KeyField>, now: int) returns (key: APIKey, error: Option<AuthError>)
      ensures (key, error) == ApplyKeyFields(env, rows, record, fields, now)
    {
      key, error := record, None;
      for i := 0 to |fields|
        invariant (key, None) == ApplyKeyFields(env, rows, record, fields[..i], now)
        invariant error == None
      {
        assert fields[..i + 1][..i] == fields[..i];
        match fields[i] {
          case KeyName(name) =>
            if name != key.name && NameTaken(rows, key.userID, name, Some(key.id)) {
              error := Some(KeyNameExists);
            } else {
              key := key.(name := name);
            }
          case KeyRole(role) =>
            if !env.validRole(role) {
              error := Some(InvalidRole);
            } else {
              key := key.(role := role);
            }
          case KeyEnabled(on) => key := key.(enabled := on);
          case KeyExpiry(expiresAt) =>
            if expiresAt < now {
              error := Some(ExpiryInPast);
            } else {
              key := key.(expiresAt := expiresAt);
            }
        }
        if error.Some? {
          KeyFailsAt(env, rows, record, fields, i, now);
          return;
        }
      }
      assert fields[..|fields|] == fields;
    }

    method UpdateAPIKey(id: int, fields: seq<KeyField>, now: int) returns (answer: Answer)
      requires Valid(now)
      modifies this
      ensures Valid(now) && (Snapshot(), answer) == AfterUpdateAPIKey(env, old(Snapshot()), id, fields, now)
    {
      StepSteady(env, cfg, Snapshot(), Op.UpdateAPIKey(id, fields), now, now);
      if id !in rows.keys {
        return Failed(KeyNotFound);
      }
      var record, error := ApplyFieldsToKey(rows.keys[id], fields, now);
      if error.Some? {
        if env.sharing {
          PublishKeyRecord(record);
        }
        return Failed(error.value);
      }
      SaveKey(record);
      return KeyOk(record);
    }

    method PublishKeyRecord(key: APIKey)
      modifies this`rows, this`keyCache
      ensures Snapshot() == PublishKey(old(Snapshot()), key)
    {
      rows, keyCache := PublishKey(Snapshot(), key).rows, PublishKey(Snapshot(), key).keyCache;
    }

    /** Write the row, then forget its cached copy. */
    method SaveKey(record: APIKey)
      requires RowsOk(rows) && KeysFresh(Snapshot())
      requires record.id in rows.keys && rows.keys[record.id].hash == record.hash
      modifies this
      ensures Snapshot() == WriteKey(old(Snapshot()), record)
    {
      InvalidateAPIKeyCache(record.id);
      rows := rows.(keys := rows.keys[record.id := record]);
    }

    method DeleteAPIKey(id: int, now: int) returns (answer: Answer)
      requires Valid(now)
      modifies this
      ensures Valid(now) && (Snapshot(), answer) == AfterDeleteAPIKey(old(Snapshot()), id)
    {
      StepSteady(env, cfg, Snapshot(), Op.DeleteAPIKey(id), now, now);
      InvalidateAPIKeyCache(id);
      if id !in rows.keys {
        return Failed(KeyNotFound);
      }
      rows := RemoveKey(rows, id);
      return Done;
    }

    method RevokeAPIKey(id: int, now: int) returns (answer: Answer)
      requires Valid(now)
      modifies this
      ensures Valid(now) && (Snapshot(), answer) == AfterRevokeAPIKey(old(Snapshot()), id)
    {
      StepSteady(env, cfg, Snapshot(), Op.RevokeAPIKey(id), now, now);
      if id !in rows.keys {
        return Failed(KeyNotFound);
      }
      SaveKey(rows.keys[id].(enabled := false));
      return Done;
    }

    method RotateAPIKey(id: int, expiresAt: int, raw: string, stamp: string, now: int) returns (answer: Answer)
      requires Valid(now)
      modifies this
      ensures Valid(now)
      ensures (Snapshot(), answer) == AfterRotateAPIKey(env, cfg, old(Snapshot()), id, expiresAt, raw, stamp, now)
    {
      if id !in rows.keys {
        return Failed(KeyNotFound);
      }
      var oldKey := rows.keys[id];
      if expiresAt < now {
        return Failed(ExpiryInPast);
      }
      answer := CreateAPIKey(oldKey.userID, oldKey.name + stamp, oldKey.role, expiresAt, raw, now);
      if answer.Failed? {
        return;
      }
      var _ := RevokeAPIKey(id, now);
    }
  }
}
