/** What every authentication operation answers, and what it leaves in storage and in the caches, in terms of the rows alone. */
module AuthOutcomes {
  import opened Options
  import opened Auth

  // ----- checks

  /** The row that is filed under the digest of the raw key. */
  predicate IsKeyFor(rows: Rows, raw: string, key: APIKey) {
    key.id in rows.keys && rows.keys[key.id] == key && key.hash == Hash(raw)
  }

  predicate KeyStored(rows: Rows, raw: string) {
    exists id | id in rows.keys :: rows.keys[id].hash == Hash(raw)
  }

  /** A raw key is accepted exactly as the enabled row with its digest, up to and including the moment of its expiry. */
  lemma KeyAccepted(cfg: Config, s: State, raw: string, now: int, key: APIKey)
    requires Steady(s, now)
    ensures AfterValidateAPIKey(cfg, s, raw, now).1 == KeyOk(key) <==>
            IsKeyFor(s.rows, raw, key) && key.enabled && now <= key.expiresAt
  {
  }

  /** Otherwise the error says whether there is no such row, it is disabled, or it has expired, in this order. */
  lemma KeyRefused(cfg: Config, s: State, raw: string, now: int)
    requires Steady(s, now)
    ensures var answer := AfterValidateAPIKey(cfg, s, raw, now).1;
            && (answer == Failed(KeyNotFound) <==> !KeyStored(s.rows, raw))
            && (answer == Failed(KeyDisabled) <==> exists id | id in s.rows.keys :: s.rows.keys[id].hash == Hash(raw) && !s.rows.keys[id].enabled)
            && (answer == Failed(KeyExpired) <==> exists id | id in s.rows.keys ::
                  s.rows.keys[id].hash == Hash(raw) && s.rows.keys[id].enabled && s.rows.keys[id].expiresAt < now)
            && (answer.KeyOk? || answer in {Failed(KeyNotFound), Failed(KeyDisabled), Failed(KeyExpired)})
  {
    var h := Hash(raw);
    if KeyStored(s.rows, raw) {
      var id :| id in s.rows.keys && s.rows.keys[id].hash == h;
      assert s.rows.keysByHash[h] == id;
      assert KeyByHash(s.rows, h) == Some(s.rows.keys[id]);
      assert h in s.keyCache ==> s.keyCache[h] == s.rows.keys[id];
    }
  }

  /** A check changes nothing but the cache, and there nothing but the entry of its digest, which then holds the row. */
  lemma KeyCheckCaches(cfg: Config, s: State, raw: string, now: int)
    requires Steady(s, now)
    ensures var (after, answer) := AfterValidateAPIKey(cfg, s, raw, now);
            && after.rows == s.rows && after.credCache == s.credCache
            && (forall h | h != Hash(raw) :: h in after.keyCache <==> h in s.keyCache)
            && (forall h | h != Hash(raw) && h in s.keyCache :: after.keyCache[h] == s.keyCache[h])
            && (cfg.keyInterval > 0 && KeyStored(s.rows, raw) ==>
                  Hash(raw) in after.keyCache && IsKeyFor(s.rows, raw, after.keyCache[Hash(raw)]))
            && (cfg.keyInterval == 0 ==> after.keyCache == s.keyCache)
  {
    if KeyStored(s.rows, raw) {
      var id :| id in s.rows.keys && s.rows.keys[id].hash == Hash(raw);
      assert s.rows.keysByHash[Hash(raw)] == id;
    }
  }

  predicate IsUserFor(rows: Rows, username: string, user: User) {
    user.id in rows.users && rows.users[user.id] == user && user.username == username
  }

  predicate NameStored(rows: Rows, username: string) {
    exists id | id in rows.users :: rows.users[id].username == username
  }

  /** Credentials are accepted exactly as the enabled row with the name, if its hash matches the password. */
  lemma CredentialsAccepted(env: Env, cfg: Config, s: State, username: string, password: string, now: int, user: User)
    requires Coherent(env, cfg, s, now) && ':' !in username
    ensures AfterValidateCredentials(env, cfg, s, username, password, now).1 == UserOk(user) <==>
            IsUserFor(s.rows, username, user) && user.enabled && env.matches(user.passwordHash, password)
  {
    CredentialsFollowRows(env, cfg, s, username, password, now);
  }

  /** Otherwise the row is disabled, whatever the password; or there is no row or the password is wrong, which reads the same. */
  lemma CredentialsRefused(env: Env, cfg: Config, s: State, username: string, password: string, now: int)
    requires Coherent(env, cfg, s, now) && ':' !in username
    ensures var answer := AfterValidateCredentials(env, cfg, s, username, password, now).1;
            && (answer == Failed(UserDisabled) <==>
                  exists id | id in s.rows.users :: s.rows.users[id].username == username && !s.rows.users[id].enabled)
            && (answer == Failed(UserNotFound) <==>
                  forall id | id in s.rows.users && s.rows.users[id].username == username ::
                    s.rows.users[id].enabled && !env.matches(s.rows.users[id].passwordHash, password))
            && (answer.UserOk? || answer in {Failed(UserDisabled), Failed(UserNotFound)})
  {
    CredentialsFollowRows(env, cfg, s, username, password, now);
    if NameStored(s.rows, username) {
      var id :| id in s.rows.users && s.rows.users[id].username == username;
      assert s.rows.usersByName[username] == id;
    }
  }

  /** The entry that is still good, or a new one. */
  function KeptOr(cfg: Config, s: State, h: Hash, now: int, user: User): Entry {
    if h in s.credCache && now < s.credCache[h].verifiedAt + cfg.userTTL then s.credCache[h] else Entry(user, now)
  }

  /**
    * A check changes only the cached entry of the credential: an accepted one is cached from now on, or as long as before if
    * it came from the cache; a refused one is forgotten.
    */
  lemma CredentialsCached(env: Env, cfg: Config, s: State, username: string, password: string, now: int)
    requires Coherent(env, cfg, s, now) && ':' !in username
    ensures var (after, answer) := AfterValidateCredentials(env, cfg, s, username, password, now);
            var h := CredKey(username, password);
            && after.rows == s.rows && after.keyCache == s.keyCache
            && (forall i | i != h :: i in after.credCache <==> i in s.credCache)
            && (forall i | i != h && i in s.credCache :: after.credCache[i] == s.credCache[i])
            && (h in after.credCache <==> answer.UserOk?)
            && (answer.UserOk? ==> after.credCache[h] == KeptOr(cfg, s, h, now, answer.user))
  {
    CredentialsFollowRows(env, cfg, s, username, password, now);
    if Unexpired(cfg, s, CredKey(username, password), now) {
      CachedCredential(env, cfg, s, username, password, now);
    }
  }

  // ----- users

  /** Nothing but the user rows and the counter for them may differ. */
  predicate OnlyUsersChange(s: State, after: State) {
    after.rows.keys == s.rows.keys && after.rows.keysByHash == s.rows.keysByHash && after.rows.nextKeyID == s.rows.nextKeyID
    && after.keyCache == s.keyCache
  }

  /** The cache without the entries of one user. */
  ghost predicate Forgets(before: map<Hash, Entry>, after: map<Hash, Entry>, id: int) {
    && (forall h :: h in after <==> h in before && before[h].user.id != id)
    && (forall h | h in after :: after[h] == before[h])
  }

  /** A user is created under an unused ID unless the role is invalid, hashing fails, or the name is taken. */
  lemma CreateUserExactly(env: Env, s: State, username: string, email: string, newHash: Option<string>, role: string, enabled: bool, now: int)
    requires Steady(s, now)
    ensures var (after, answer) := AfterCreateUser(env, s, username, email, newHash, role, enabled);
            && (answer == Failed(InvalidRole) <==> !env.validRole(role))
            && (answer == Failed(HashFailed) <==> env.validRole(role) && newHash.None?)
            && (answer == Failed(UserExists) <==> env.validRole(role) && newHash.Some? && NameStored(s.rows, username))
            && (answer.UserOk? <==> env.validRole(role) && newHash.Some? && !NameStored(s.rows, username))
            && (!answer.UserOk? ==> after == s)
            && (answer.UserOk? ==>
                  var id := answer.user.id;
                  && id !in s.rows.users && answer.user == User(id, username, email, newHash.value, role, enabled)
                  && after.rows.users == s.rows.users[id := answer.user]
                  && OnlyUsersChange(s, after) && after.credCache == s.credCache)
  {
    if NameStored(s.rows, username) {
      var id :| id in s.rows.users && s.rows.users[id].username == username;
      assert username in s.rows.usersByName;
    }
    if username in s.rows.usersByName {
      var id := s.rows.usersByName[username];
      assert id in s.rows.users && s.rows.users[id].username == username;
      assert NameStored(s.rows, username);
    }
  }

  lemma DeleteUserExactly(s: State, id: int, now: int)
    requires Steady(s, now)
    ensures var (after, answer) := AfterDeleteUser(s, id);
            && answer == (if id in s.rows.users then Done else Failed(UserNotFound))
            && after.rows.users == s.rows.users - {id}
            && OnlyUsersChange(s, after) && Forgets(s.credCache, after.credCache, id)
  {
    assert id !in s.rows.users ==> s.rows.users - {id} == s.rows.users;
  }

  /** A password changes if the old one matches and the new one can be hashed; then no credential of the user stays cached. */
  lemma ChangePasswordExactly(env: Env, s: State, id: int, oldPassword: string, newHash: Option<string>, now: int)
    requires Steady(s, now)
    ensures var (after, answer) := AfterChangePassword(env, s, id, oldPassword, newHash);
            && (answer == Failed(UserNotFound) <==> id !in s.rows.users)
            && (answer == Failed(PermissionDenied) <==> id in s.rows.users && !env.matches(s.rows.users[id].passwordHash, oldPassword))
            && (answer == Failed(HashFailed) <==>
                  id in s.rows.users && env.matches(s.rows.users[id].passwordHash, oldPassword) && newHash.None?)
            && (answer == Done <==> id in s.rows.users && env.matches(s.rows.users[id].passwordHash, oldPassword) && newHash.Some?)
            && (answer != Done ==> after == s)
            && (answer == Done ==>
                  && after.rows.users == s.rows.users[id := s.rows.users[id].(passwordHash := newHash.value)]
                  && OnlyUsersChange(s, after) && Forgets(s.credCache, after.credCache, id))
  {
  }

  /** What is wrong with a field that is not acceptable. */
  function Complaint(f: UserField): AuthError {
    if f.Password? then HashFailed else InvalidRole
  }

  lemma {:induction false} FirstComplaint(env: Env, user: User, fields: seq<UserField>, i: nat)
    requires i < |fields| && !Acceptable(env, fields[i]) && forall f | f in fields[..i] :: Acceptable(env, f)
    ensures ApplyFields(env, user, fields).1 == Some(Complaint(fields[i]))
  {
    var init := fields[..|fields| - 1];
    if i == |init| {
      assert fields[..i] == init;
      RefusedExactly(env, user, init);
    } else {
      assert fields[..i] == init[..i] && init[i] == fields[i];
      FirstComplaint(env, user, init, i);
    }
  }

  /** The row shows each named field and, where a field is not named, what the row showed before. */
  ghost predicate Updated(before: User, after: User, fields: seq<UserField>) {
    && after.id == before.id && after.username == before.username
    && (forall f | f in fields :: ShowsField(after, f))
    && ((forall f | f in fields :: !f.Email?) ==> after.email == before.email)
    && ((forall f | f in fields :: !f.Password?) ==> after.passwordHash == before.passwordHash)
    && ((forall f | f in fields :: !f.UserRole?) ==> after.role == before.role)
    && ((forall f | f in fields :: !f.UserEnabled?) ==> after.enabled == before.enabled)
  }

  /** An update is accepted exactly if all its fields are acceptable; the error is that of the first one that is not. */
  lemma UpdateUserExactly(env: Env, s: State, id: int, fields: seq<UserField>, now: int)
    requires Steady(s, now) && DistinctKinds(fields)
    ensures var (after, answer) := AfterUpdateUser(env, s, id, fields);
            && (id !in s.rows.users ==> after == s && answer == Failed(UserNotFound))
            && (id in s.rows.users && (forall f | f in fields :: Acceptable(env, f)) ==>
                  && answer.UserOk? && Updated(s.rows.users[id], answer.user, fields)
                  && after.rows.users == s.rows.users[id := answer.user]
                  && OnlyUsersChange(s, after) && Forgets(s.credCache, after.credCache, id))
            && (forall i | id in s.rows.users && 0 <= i < |fields| && !Acceptable(env, fields[i])
                           && (forall f | f in fields[..i] :: Acceptable(env, f)) ::
                  answer == Failed(Complaint(fields[i])))
  {
    if id in s.rows.users {
      var row := s.rows.users[id];
      RefusedExactly(env, row, fields);
      UpdateKeepsOthers(env, row, fields);
      if forall f | f in fields :: Acceptable(env, f) {
        UpdateSetsFields(env, row, fields);
      }
      forall i | 0 <= i < |fields| && !Acceptable(env, fields[i]) && (forall f | f in fields[..i] :: Acceptable(env, f))
        ensures ApplyFields(env, row, fields).1 == Some(Complaint(fields[i]))
      {
        FirstComplaint(env, row, fields, i);
      }
    }
  }

  // ----- keys

  predicate OnlyKeysChange(s: State, after: State) {
    after.rows.users == s.rows.users && after.rows.usersByName == s.rows.usersByName && after.rows.nextUserID == s.rows.nextUserID
    && after.credCache == s.credCache
  }

  ghost predicate ForgetsKey(before: map<Hash, APIKey>, after: map<Hash, APIKey>, id: int) {
    && (forall h :: h in after <==> h in before && before[h].id != id)
    && (forall h | h in after :: after[h] == before[h])
  }

  /** The user has a key of this name. */
  predicate NameInUse(rows: Rows, userID: int, name: string) {
    exists id | id in rows.keys :: rows.keys[id].userID == userID && rows.keys[id].name == name
  }

  /** The first objection to a new key, in the order in which they are raised. */
  function Objection(env: Env, rows: Rows, userID: int, name: string, role: string, expiresAt: int, raw: string, now: int): Option<AuthError> {
    if !env.validRole(role) then Some(InvalidRole)
    else if name == "" then Some(NameRequired)
    else if userID <= 0 then Some(UserIDRequired)
    else if now > expiresAt then Some(ExpiryInPast)
    else if NameInUse(rows, userID, name) then Some(KeyNameExists)
    else if KeyStored(rows, raw) then Some(KeyExists)
    else None
  }

  /** A key is created enabled, under an unused ID, and cached if keys are cached, unless there is an objection to it. */
  lemma CreateKeyExactly(env: Env, cfg: Config, s: State, userID: int, name: string, role: string, expiresAt: int, raw: string, now: int)
    requires Steady(s, now)
    ensures var (after, answer) := AfterCreateAPIKey(env, cfg, s, userID, name, role, expiresAt, raw, now);
            match Objection(env, s.rows, userID, name, role, expiresAt, raw, now)
            case Some(error) => answer == Failed(error) && after == s
            case None =>
              && answer.KeyOk? && answer.key.id !in s.rows.keys
              && answer.key == APIKey(answer.key.id, userID, Hash(raw), name, role, true, expiresAt)
              && after.rows.keys == s.rows.keys[answer.key.id := answer.key] && OnlyKeysChange(s, after)
              && after.keyCache == if cfg.keyInterval > 0 then s.keyCache[Hash(raw) := answer.key] else s.keyCache
  {
    if KeyStored(s.rows, raw) {
      var id :| id in s.rows.keys && s.rows.keys[id].hash == Hash(raw);
      assert Hash(raw) in s.rows.keysByHash;
    }
    if Hash(raw) in s.rows.keysByHash {
      var id := s.rows.keysByHash[Hash(raw)];
      assert id in s.rows.keys && s.rows.keys[id].hash == Hash(raw);
      assert KeyStored(s.rows, raw);
    }
    assert NameTaken(s.rows, userID, name, None) <==> NameInUse(s.rows, userID, name);
  }

  lemma DeleteKeyExactly(s: State, id: int, now: int)
    requires Steady(s, now)
    ensures var (after, answer) := AfterDeleteAPIKey(s, id);
            && answer == (if id in s.rows.keys then Done else Failed(KeyNotFound))
            && after.rows.keys == s.rows.keys - {id}
            && OnlyKeysChange(s, after) && ForgetsKey(s.keyCache, after.keyCache, id)
  {
    assert id !in s.rows.keys ==> s.rows.keys - {id} == s.rows.keys;
  }

  lemma RevokeKeyExactly(s: State, id: int, now: int)
    requires Steady(s, now)
    ensures var (after, answer) := AfterRevokeAPIKey(s, id);
            && (id !in s.rows.keys ==> after == s && answer == Failed(KeyNotFound))
            && (id in s.rows.keys ==>
                  && answer == Done && after.rows.keys == s.rows.keys[id := s.rows.keys[id].(enabled := false)]
                  && OnlyKeysChange(s, after) && ForgetsKey(s.keyCache, after.keyCache, id))
  {
  }

  /** A rotation makes a key like the old one, under the new name and expiry, and disables the old one; refused, it does nothing. */
  lemma RotateKeyExactly(env: Env, cfg: Config, s: State, id: int, expiresAt: int, raw: string, stamp: string, now: int)
    requires Steady(s, now)
    ensures var (after, answer) := AfterRotateAPIKey(env, cfg, s, id, expiresAt, raw, stamp, now);
            if id !in s.rows.keys then answer == Failed(KeyNotFound) && after == s
            else if now > expiresAt then answer == Failed(ExpiryInPast) && after == s
            else
              var row := s.rows.keys[id];
              match Objection(env, s.rows, row.userID, row.name + stamp, row.role, expiresAt, raw, now)
              case Some(error) => answer == Failed(error) && after == s
              case None =>
                && answer.KeyOk? && answer.key.id !in s.rows.keys
                && answer.key == APIKey(answer.key.id, row.userID, Hash(raw), row.name + stamp, row.role, true, expiresAt)
                && after.rows.keys == s.rows.keys[answer.key.id := answer.key][id := row.(enabled := false)]
                && OnlyKeysChange(s, after)
  {
    if id in s.rows.keys && now <= expiresAt {
      var row := s.rows.keys[id];
      CreateKeyExactly(env, cfg, s, row.userID, row.name + stamp, row.role, expiresAt, raw, now);
      CreateKeySteady(env, cfg, s, row.userID, row.name + stamp, row.role, expiresAt, raw, now);
      var s1 := AfterCreateAPIKey(env, cfg, s, row.userID, row.name + stamp, row.role, expiresAt, raw, now).0;
      RevokeKeyExactly(s1, id, now);
    }
  }

  /** A refresh that could list the keys leaves exactly the stored keys in the cache, each under its own digest. */
  lemma RefreshExactly(cfg: Config, s: State, listed: bool, now: int)
    requires Steady(s, now)
    ensures var (after, answer) := AfterRefresh(cfg, s, listed);
            && answer == Done && after.rows == s.rows && after.credCache == s.credCache
            && (cfg.keyInterval == 0 || !listed ==> after.keyCache == s.keyCache)
            && (cfg.keyInterval > 0 && listed ==>
                  && (forall id | id in s.rows.keys :: s.rows.keys[id].hash in after.keyCache && after.keyCache[s.rows.keys[id].hash] == s.rows.keys[id])
                  && (forall h | h in after.keyCache :: after.keyCache[h].id in s.rows.keys && s.rows.keys[after.keyCache[h].id] == after.keyCache[h]))
  {
    forall h | h in Refreshed(s.rows)
      ensures Refreshed(s.rows)[h].id in s.rows.keys && s.rows.keys[Refreshed(s.rows)[h].id] == Refreshed(s.rows)[h]
    {
      assert s.rows.keys[s.rows.keysByHash[h]].id == s.rows.keysByHash[h];
    }
  }

  /** What is wrong with a key field that is not acceptable. */
  function KeyComplaint(f: KeyField): AuthError {
    match f
    case KeyName(_) => KeyNameExists
    case KeyRole(_) => InvalidRole
    case _ => ExpiryInPast
  }

  lemma {:induction false} FirstKeyComplaint(env: Env, rows: Rows, key: APIKey, fields: seq<KeyField>, i: nat, now: int)
    requires DistinctKeyKinds(fields) && i < |fields| && !AcceptableKey(env, rows, key, fields[i], now)
    requires forall f | f in fields[..i] :: AcceptableKey(env, rows, key, f, now)
    ensures ApplyKeyFields(env, rows, key, fields, now).1 == Some(KeyComplaint(fields[i]))
  {
    var init := fields[..|fields| - 1];
    if i == |init| {
      KeyPrefixAccepted(env, rows, key, fields, i, now);
      assert fields[..i] == init;
      JudgedAsStored(env, rows, key, fields, now);
    } else {
      assert fields[..i] == init[..i] && init[i] == fields[i];
      FirstKeyComplaint(env, rows, key, init, i, now);
    }
  }

  lemma {:induction false} KeyUpdateKeepsOthers(env: Env, rows: Rows, key: APIKey, fields: seq<KeyField>, now: int)
    ensures var r := ApplyKeyFields(env, rows, key, fields, now).0;
            && r.id == key.id && r.hash == key.hash && r.userID == key.userID
            && ((forall f | f in fields :: !f.KeyName?) ==> r.name == key.name)
            && ((forall f | f in fields :: !f.KeyRole?) ==> r.role == key.role)
            && ((forall f | f in fields :: !f.KeyEnabled?) ==> r.enabled == key.enabled)
            && ((forall f | f in fields :: !f.KeyExpiry?) ==> r.expiresAt == key.expiresAt)
  {
    if fields != [] {
      var init, last := fields[..|fields| - 1], fields[|fields| - 1];
      assert forall f | f in init :: f in fields;
      assert last in fields;
      KeyUpdateKeepsOthers(env, rows, key, init, now);
    }
  }

  ghost predicate KeyUpdated(before: APIKey, after: APIKey, fields: seq<KeyField>) {
    && after.id == before.id && after.hash == before.hash && after.userID == before.userID
    && (forall f | f in fields :: ShowsKeyField(after, f))
    && ((forall f | f in fields :: !f.KeyName?) ==> after.name == before.name)
    && ((forall f | f in fields :: !f.KeyRole?) ==> after.role == before.role)
    && ((forall f | f in fields :: !f.KeyEnabled?) ==> after.enabled == before.enabled)
    && ((forall f | f in fields :: !f.KeyExpiry?) ==> after.expiresAt == before.expiresAt)
  }

  /** A name may be kept, or changed to one that no other key of the user has; roles must be valid and expiries not past. */
  predicate Fits(env: Env, rows: Rows, key: APIKey, f: KeyField, now: int) {
    && (f.KeyName? ==> f.name == key.name || forall id | id in rows.keys && id != key.id ::
          rows.keys[id].userID != key.userID || rows.keys[id].name != f.name)
    && (f.KeyRole? ==> env.validRole(f.role))
    && (f.KeyExpiry? ==> now <= f.expiresAt)
  }

  lemma FitsIsAcceptable(env: Env, rows: Rows, key: APIKey, f: KeyField, now: int)
    ensures Fits(env, rows, key, f, now) <==> AcceptableKey(env, rows, key, f, now)
  {
  }

  lemma UpdateKeyExactly(env: Env, s: State, id: int, fields: seq<KeyField>, now: int)
    requires Steady(s, now) && DistinctKeyKinds(fields)
    ensures var (after, answer) := AfterUpdateAPIKey(env, s, id, fields, now);
            && (id !in s.rows.keys ==> after == s && answer == Failed(KeyNotFound))
            && (id in s.rows.keys && (forall f | f in fields :: Fits(env, s.rows, s.rows.keys[id], f, now)) ==>
                  && answer.KeyOk? && KeyUpdated(s.rows.keys[id], answer.key, fields)
                  && after.rows.keys == s.rows.keys[id := answer.key]
                  && OnlyKeysChange(s, after) && ForgetsKey(s.keyCache, after.keyCache, id))
            && (forall i | id in s.rows.keys && 0 <= i < |fields| && !Fits(env, s.rows, s.rows.keys[id], fields[i], now)
                           && (forall f | f in fields[..i] :: Fits(env, s.rows, s.rows.keys[id], f, now)) ::
                  answer == Failed(KeyComplaint(fields[i])))
  {
    if id in s.rows.keys {
      var row := s.rows.keys[id];
      forall f ensures Fits(env, s.rows, row, f, now) <==> AcceptableKey(env, s.rows, row, f, now) {
        FitsIsAcceptable(env, s.rows, row, f, now);
      }
      KeyUpdateKeepsOthers(env, s.rows, row, fields, now);
      if forall f | f in fields :: Fits(env, s.rows, row, f, now) {
        assert fields[..|fields|] == fields;
        KeyPrefixAccepted(env, s.rows, row, fields, |fields|, now);
        KeyUpdateSetsFields(env, s.rows, row, fields, now);
      }
      forall i | 0 <= i < |fields| && !Fits(env, s.rows, row, fields[i], now) && (forall f | f in fields[..i] :: Fits(env, s.rows, row, f, now))
        ensures ApplyKeyFields(env, s.rows, row, fields, now).1 == Some(KeyComplaint(fields[i]))
      {
        FirstKeyComplaint(env, s.rows, row, fields, i, now);
      }
    }
  }
}
