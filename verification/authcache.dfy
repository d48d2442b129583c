/** User and API-key authentication: the rows in storage, the two caches in front of them, and the service. */
module Auth {
  import opened Options

  // ----- storage rows

  /** A keyed SHA-256 digest, told apart from every other by what was hashed. */
  datatype Hash = Hash(preimage: string)

  datatype User = User(id: int, username: string, email: string, passwordHash: string, role: string, enabled: bool)

  datatype APIKey = APIKey(id: int, userID: int, hash: Hash, name: string, role: string, enabled: bool, expiresAt: int)

  datatype Rows = Rows(
    users: map<int, User>, usersByName: map<string, int>, nextUserID: int,
    keys: map<int, APIKey>, keysByHash: map<Hash, int>, nextKeyID: int)

  function UserByID(rows: Rows, id: int): Option<User> {
    if id in rows.users then Some(rows.users[id]) else None
  }

  function UserByName(rows: Rows, name: string): Option<User> {
    if name in rows.usersByName then UserByID(rows, rows.usersByName[name]) else None
  }

  function KeyByID(rows: Rows, id: int): Option<APIKey> {
    if id in rows.keys then Some(rows.keys[id]) else None
  }

  function KeyByHash(rows: Rows, hash: Hash): Option<APIKey> {
    if hash in rows.keysByHash then KeyByID(rows, rows.keysByHash[hash]) else None
  }

  /** Some other key of the user has this name. */
  predicate NameTaken(rows: Rows, userID: int, name: string, except: Option<int>) {
    exists id | id in rows.keys ::
      rows.keys[id].userID == userID && rows.keys[id].name == name && Some(id) != except
  }

  function InsertUser(rows: Rows, user: User): Rows {
    var row := user.(id := rows.nextUserID);
    rows.(users := rows.users[row.id := row], usersByName := rows.usersByName[row.username := row.id],
          nextUserID := rows.nextUserID + 1)
  }

  function InsertKey(rows: Rows, key: APIKey): Rows {
    var row := key.(id := rows.nextKeyID);
    rows.(keys := rows.keys[row.id := row], keysByHash := rows.keysByHash[row.hash := row.id],
          nextKeyID := rows.nextKeyID + 1)
  }

  function RemoveUser(rows: Rows, id: int): Rows
    requires id in rows.users
  {
    rows.(users := rows.users - {id}, usersByName := rows.usersByName - {rows.users[id].username})
  }

  function RemoveKey(rows: Rows, id: int): Rows
    requires id in rows.keys
  {
    rows.(keys := rows.keys - {id}, keysByHash := rows.keysByHash - {rows.keys[id].hash})
  }

  /** Every row is filed under its own ID and found through its index, and no ID at or above the counter is taken. */
  ghost predicate RowsOk(rows: Rows) {
    && (forall id | id in rows.users ::
          && rows.users[id].id == id < rows.nextUserID
          && rows.users[id].username in rows.usersByName && rows.usersByName[rows.users[id].username] == id)
    && (forall name | name in rows.usersByName ::
          rows.usersByName[name] in rows.users && rows.users[rows.usersByName[name]].username == name)
    && (forall id | id in rows.keys ::
          && rows.keys[id].id == id < rows.nextKeyID
          && rows.keys[id].hash in rows.keysByHash && rows.keysByHash[rows.keys[id].hash] == id)
    && (forall hash | hash in rows.keysByHash ::
          rows.keysByHash[hash] in rows.keys && rows.keys[rows.keysByHash[hash]].hash == hash)
  }

  // ----- the service, as functions

  /**
    * What the service does not decide itself: password checks, the list of roles, and whether storage hands out the
    * stored records themselves, as the in-memory storage does, or copies of them.
    */
  datatype Env = Env(matches: (string, string) -> bool, validRole: string -> bool, sharing: bool)

  /** The key cache is off when `keyInterval` is 0; credentials stay cached for `userTTL`. */
  datatype Config = Config(keyInterval: nat, userTTL: nat)

  const UNCACHED := Config(0, 0)

  datatype Entry = Entry(user: User, verifiedAt: int)

  datatype State = State(rows: Rows, keyCache: map<Hash, APIKey>, credCache: map<Hash, Entry>)

  datatype AuthError =
    | InvalidRole | HashFailed | UserExists | UserNotFound | UserDisabled | PermissionDenied
    | NameRequired | UserIDRequired | ExpiryInPast | KeyNameExists | KeyExists | KeyNotFound | KeyDisabled | KeyExpired

  datatype Answer = Done | UserOk(user: User) | KeyOk(key: APIKey) | Failed(error: AuthError)

  /** One field of an update; `newHash` is the outcome of hashing the new password, `None` when hashing it fails. */
  datatype UserField = Email(email: string) | Password(newHash: Option<string>) | UserRole(role: string) | UserEnabled(on: bool)

  datatype KeyField = KeyName(name: string) | KeyRole(role: string) | KeyEnabled(on: bool) | KeyExpiry(expiresAt: int)

  datatype Op =
    | CreateUser(username: string, email: string, newHash: Option<string>, role: string, enabled: bool)
    | UpdateUser(id: int, userFields: seq<UserField>)
    | DeleteUser(id: int)
    | ChangePassword(id: int, oldPassword: string, newHash: Option<string>)
    | ValidateCredentials(username: string, password: string)
    | CreateAPIKey(userID: int, name: string, role: string, expiresAt: int, raw: string)
    | ValidateAPIKey(raw: string)
    | UpdateAPIKey(id: int, keyFields: seq<KeyField>)
    | DeleteAPIKey(id: int)
    | RevokeAPIKey(id: int)
    | RotateAPIKey(id: int, expiresAt: int, raw: string, stamp: string)
    | RefreshCache(listed: bool)

  function CredKey(username: string, password: string): Hash {
    Hash(username + ":" + password)
  }

  function DropUser(cache: map<Hash, Entry>, id: int): map<Hash, Entry> {
    map h | h in cache && cache[h].user.id != id :: cache[h]
  }

  function DropKey(cache: map<Hash, APIKey>, id: int): map<Hash, APIKey> {
    map h | h in cache && cache[h].id != id :: cache[h]
  }

  function Refreshed(rows: Rows): map<Hash, APIKey> {
    map h | h in rows.keysByHash && rows.keysByHash[h] in rows.keys :: rows.keys[rows.keysByHash[h]]
  }

  function AfterCreateUser(env: Env, s: State, username: string, email: string, newHash: Option<string>, role: string,
                           enabled: bool): (State, Answer)
  {
    if !env.validRole(role) then (s, Failed(InvalidRole))
    else if newHash.None? then (s, Failed(HashFailed))
    else if username in s.rows.usersByName then (s, Failed(UserExists))
    else
      var user := User(s.rows.nextUserID, username, email, newHash.value, role, enabled);
      (s.(rows := InsertUser(s.rows, user)), UserOk(user))
  }

  /** One turn of the update loop: the record so far, and the error that ends the loop. */
  function ApplyField(env: Env, user: User, f: UserField): (User, Option<AuthError>) {
    match f
    case Email(email) => (user.(email := email), None)
    case Password(newHash) =>
      if newHash.None? then (user, Some(HashFailed)) else (user.(passwordHash := newHash.value), None)
    case UserRole(role) => if !env.validRole(role) then (user, Some(InvalidRole)) else (user.(role := role), None)
    case UserEnabled(on) => (user.(enabled := on), None)
  }

  /** The loop over the fields, in the order in which the map of updates yields them. */
  function ApplyFields(env: Env, user: User, fields: seq<UserField>): (r: (User, Option<AuthError>))
    ensures r.0.id == user.id && r.0.username == user.username
  {
    if fields == [] then (user, None)
    else
      var (so, error) := ApplyFields(env, user, fields[..|fields| - 1]);
      if error.Some? then (so, error) else ApplyField(env, so, fields[|fields| - 1])
  }

  /** Write the user row and forget every credential cached for it. */
  function WriteUser(s: State, user: User): State {
    s.(rows := s.rows.(users := s.rows.users[user.id := user]), credCache := DropUser(s.credCache, user.id))
  }

  /** What a change of the stored record itself shows: in the row, and in the cached credentials that hold the record. */
  function PublishUser(s: State, user: User): State {
    s.(rows := s.rows.(users := s.rows.users[user.id := user]),
       credCache := map h | h in s.credCache ::
         if s.credCache[h].user.id == user.id then Entry(user, s.credCache[h].verifiedAt) else s.credCache[h])
  }

  /** A refused update has already changed the record; if that is the stored one, the change stays. */
  function AfterUpdateUser(env: Env, s: State, id: int, fields: seq<UserField>): (State, Answer) {
    var user := UserByID(s.rows, id);
    if user.None? then (s, Failed(UserNotFound))
    else
      var (changed, error) := ApplyFields(env, user.value, fields);
      if error.None? then (WriteUser(s, changed), UserOk(changed))
      else (if env.sharing then PublishUser(s, changed) else s, Failed(error.value))
  }

  function AfterDeleteUser(s: State, id: int): (State, Answer) {
    var s := s.(credCache := DropUser(s.credCache, id));
    if id in s.rows.users then (s.(rows := RemoveUser(s.rows, id)), Done) else (s, Failed(UserNotFound))
  }

  function AfterChangePassword(env: Env, s: State, id: int, oldPassword: string, newHash: Option<string>): (State, Answer) {
    var user := UserByID(s.rows, id);
    if user.None? then (s, Failed(UserNotFound))
    else if !env.matches(user.value.passwordHash, oldPassword) then (s, Failed(PermissionDenied))
    else if newHash.None? then (s, Failed(HashFailed))
    else (WriteUser(s, user.value.(passwordHash := newHash.value)), Done)
  }

  function CheckCredentials(env: Env, rows: Rows, username: string, password: string): Answer {
    var user := UserByName(rows, username);
    if user.None? then Failed(UserNotFound)
    else if !user.value.enabled then Failed(UserDisabled)
    else if !env.matches(user.value.passwordHash, password) then Failed(UserNotFound)
    else UserOk(user.value)
  }

  function AfterValidateCredentials(env: Env, cfg: Config, s: State, username: string, password: string, now: int):
      (State, Answer)
  {
    var h := CredKey(username, password);
    var dropped := s.(credCache := s.credCache - {h});
    if h in s.credCache && now - s.credCache[h].verifiedAt < cfg.userTTL then
      if s.credCache[h].user.enabled then (s, UserOk(s.credCache[h].user)) else (dropped, Failed(UserDisabled))
    else
      var answer := CheckCredentials(env, s.rows, username, password);
      if answer.UserOk? then (s.(credCache := s.credCache[h := Entry(answer.user, now)]), answer) else (dropped, answer)
  }

  function CacheKey(cfg: Config, s: State, key: APIKey): State {
    if cfg.keyInterval > 0 then s.(keyCache := s.keyCache[key.hash := key]) else s
  }

  function AfterCreateAPIKey(env: Env, cfg: Config, s: State, userID: int, name: string, role: string, expiresAt: int,
                             raw: string, now: int): (State, Answer)
  {
    if !env.validRole(role) then (s, Failed(InvalidRole))
    else if name == "" then (s, Failed(NameRequired))
    else if userID <= 0 then (s, Failed(UserIDRequired))
    else if expiresAt < now then (s, Failed(ExpiryInPast))
    else if NameTaken(s.rows, userID, name, None) then (s, Failed(KeyNameExists))
    else if Hash(raw) in s.rows.keysByHash then (s, Failed(KeyExists))
    else
      var key := APIKey(s.rows.nextKeyID, userID, Hash(raw), name, role, true, expiresAt);
      (CacheKey(cfg, s.(rows := InsertKey(s.rows, key)), key), KeyOk(key))
  }

  function Judge(key: APIKey, now: int): Answer {
    if !key.enabled then Failed(KeyDisabled) else if key.expiresAt < now then Failed(KeyExpired) else KeyOk(key)
  }

  function AfterValidateAPIKey(cfg: Config, s: State, raw: string, now: int): (State, Answer) {
    var h := Hash(raw);
    if cfg.keyInterval > 0 && h in s.keyCache then (s, Judge(s.keyCache[h], now))
    else
      var key := KeyByHash(s.rows, h);
      if key.None? then (s, Failed(KeyNotFound))
      else ((if cfg.keyInterval > 0 then s.(keyCache := s.keyCache[h := key.value]) else s), Judge(key.value, now))
  }

  function ApplyKeyField(env: Env, rows: Rows, key: APIKey, f: KeyField, now: int): (APIKey, Option<AuthError>) {
    match f
    case KeyName(name) =>
      if name != key.name && NameTaken(rows, key.userID, name, Some(key.id)) then (key, Some(KeyNameExists))
      else (key.(name := name), None)
    case KeyRole(role) => if !env.validRole(role) then (key, Some(InvalidRole)) else (key.(role := role), None)
    case KeyEnabled(on) => (key.(enabled := on), None)
    case KeyExpiry(expiresAt) =>
      if expiresAt < now then (key, Some(ExpiryInPast)) else (key.(expiresAt := expiresAt), None)
  }

  function ApplyKeyFields(env: Env, rows: Rows, key: APIKey, fields: seq<KeyField>, now: int): (r: (APIKey, Option<AuthError>))
    ensures r.0.id == key.id && r.0.hash == key.hash
  {
    if fields == [] then (key, None)
    else
      var (so, error) := ApplyKeyFields(env, rows, key, fields[..|fields| - 1], now);
      if error.Some? then (so, error) else ApplyKeyField(env, rows, so, fields[|fields| - 1], now)
  }

  /** Write the key row and forget the cached copy. */
  function WriteKey(s: State, key: APIKey): State {
    s.(rows := s.rows.(keys := s.rows.keys[key.id := key]), keyCache := DropKey(s.keyCache, key.id))
  }

  function PublishKey(s: State, key: APIKey): State {
    s.(rows := s.rows.(keys := s.rows.keys[key.id := key]),
       keyCache := map h | h in s.keyCache :: if s.keyCache[h].id == key.id then key else s.keyCache[h])
  }

  function AfterUpdateAPIKey(env: Env, s: State, id: int, fields: seq<KeyField>, now: int): (State, Answer) {
    var key := KeyByID(s.rows, id);
    if key.None? then (s, Failed(KeyNotFound))
    else
      var (changed, error) := ApplyKeyFields(env, s.rows, key.value, fields, now);
      if error.None? then (WriteKey(s, changed), KeyOk(changed))
      else (if env.sharing then PublishKey(s, changed) else s, Failed(error.value))
  }

  function AfterDeleteAPIKey(s: State, id: int): (State, Answer) {
    var s := s.(keyCache := DropKey(s.keyCache, id));
    if id in s.rows.keys then (s.(rows := RemoveKey(s.rows, id)), Done) else (s, Failed(KeyNotFound))
  }

  function AfterRevokeAPIKey(s: State, id: int): (State, Answer) {
    var key := KeyByID(s.rows, id);
    if key.None? then (s, Failed(KeyNotFound)) else (WriteKey(s, key.value.(enabled := false)), Done)
  }

  function AfterRotateAPIKey(env: Env, cfg: Config, s: State, id: int, expiresAt: int, raw: string, stamp: string, now: int):
      (State, Answer)
  {
    var key := KeyByID(s.rows, id);
    if key.None? then (s, Failed(KeyNotFound))
    else if expiresAt < now then (s, Failed(ExpiryInPast))
    else
      var (s1, answer) := AfterCreateAPIKey(env, cfg, s, key.value.userID, key.value.name + stamp, key.value.role,
                                            expiresAt, raw, now);
      if answer.Failed? then (s1, answer) else (AfterRevokeAPIKey(s1, id).0, answer)
  }

  function AfterRefresh(cfg: Config, s: State, listed: bool): (State, Answer) {
    (if cfg.keyInterval > 0 && listed then s.(keyCache := Refreshed(s.rows)) else s, Done)
  }

  function Step(env: Env, cfg: Config, s: State, op: Op, now: int): (State, Answer) {
    match op
    case CreateUser(username, email, newHash, role, enabled) =>
      AfterCreateUser(env, s, username, email, newHash, role, enabled)
    case UpdateUser(id, fields) => AfterUpdateUser(env, s, id, fields)
    case DeleteUser(id) => AfterDeleteUser(s, id)
    case ChangePassword(id, oldPassword, newHash) => AfterChangePassword(env, s, id, oldPassword, newHash)
    case ValidateCredentials(username, password) => AfterValidateCredentials(env, cfg, s, username, password, now)
    case CreateAPIKey(userID, name, role, expiresAt, raw) =>
      AfterCreateAPIKey(env, cfg, s, userID, name, role, expiresAt, raw, now)
    case ValidateAPIKey(raw) => AfterValidateAPIKey(cfg, s, raw, now)
    case UpdateAPIKey(id, fields) => AfterUpdateAPIKey(env, s, id, fields, now)
    case DeleteAPIKey(id) => AfterDeleteAPIKey(s, id)
    case RevokeAPIKey(id) => AfterRevokeAPIKey(s, id)
    case RotateAPIKey(id, expiresAt, raw, stamp) => AfterRotateAPIKey(env, cfg, s, id, expiresAt, raw, stamp, now)
    case RefreshCache(listed) => AfterRefresh(cfg, s, listed)
  }

  // ----- what the caches hold

  /** Every cached key is the row with its hash. */
  ghost predicate KeysFresh(s: State) {
    forall h | h in s.keyCache ::
      s.keyCache[h].hash == h && s.keyCache[h].id in s.rows.keys && s.rows.keys[s.keyCache[h].id] == s.keyCache[h]
  }

  /** The digest was taken of this user's name and of some password. */
  predicate Names(user: User, h: Hash) {
    && |h.preimage| > |user.username|
    && h.preimage[..|user.username|] == user.username && h.preimage[|user.username|] == ':'
  }

  function Secret(user: User, h: Hash): string {
    if Names(user, h) then h.preimage[|user.username| + 1..] else ""
  }

  predicate Accepts(env: Env, user: User, h: Hash) {
    env.matches(user.passwordHash, Secret(user, h))
  }

  /** Every cached credential is of a row as it is now, under that row's name, and was verified in the past. */
  ghost predicate CredentialsNamed(s: State, now: int) {
    forall h | h in s.credCache ::
      var user := s.credCache[h].user;
      && user.id in s.rows.users && s.rows.users[user.id] == user && ':' !in user.username
      && Names(user, h) && s.credCache[h].verifiedAt <= now
  }

  predicate Unexpired(cfg: Config, s: State, h: Hash, now: int) {
    h in s.credCache && now - s.credCache[h].verifiedAt < cfg.userTTL
  }

  /** A cached credential that would be accepted from the cache is one that its row accepts. */
  ghost predicate CredentialsHonest(env: Env, cfg: Config, s: State, now: int) {
    forall h | Unexpired(cfg, s, h, now) && s.credCache[h].user.enabled :: Accepts(env, s.credCache[h].user, h)
  }

  /** What every operation keeps, harmful or not. */
  ghost predicate Steady(s: State, now: int) {
    RowsOk(s.rows) && KeysFresh(s) && CredentialsNamed(s, now)
  }

  ghost predicate Coherent(env: Env, cfg: Config, s: State, now: int) {
    Steady(s, now) && CredentialsHonest(env, cfg, s, now)
  }

  // ----- updates that are refused half-way

  /** A usable cached credential of the user would not be accepted by the changed record. */
  ghost predicate Spoilt(env: Env, cfg: Config, s: State, user: User, now: int) {
    user.enabled && exists h :: Unexpired(cfg, s, h, now) && s.credCache[h].user.id == user.id && !Accepts(env, user, h)
  }

  /** An update is refused, stays in the shared record, and spoils a cached credential. */
  ghost predicate Harmful(env: Env, cfg: Config, s: State, op: Op, now: int) {
    && env.sharing && op.UpdateUser? && op.id in s.rows.users
    && var (changed, error) := ApplyFields(env, s.rows.users[op.id], op.userFields);
       error.Some? && Spoilt(env, cfg, s, changed, now)
  }

  predicate Acceptable(env: Env, f: UserField) {
    (f.Password? ==> f.newHash.Some?) && (f.UserRole? ==> env.validRole(f.role))
  }

  /** Whether an update is refused does not depend on the order of its fields; what stays of a refused one does. */
  lemma {:induction false} RefusedExactly(env: Env, user: User, fields: seq<UserField>)
    ensures ApplyFields(env, user, fields).1 == None <==> forall f | f in fields :: Acceptable(env, f)
  {
    if fields != [] {
      var init, last := fields[..|fields| - 1], fields[|fields| - 1];
      assert fields == init + [last];
      assert last in fields && (forall f | f in fields :: f in init || f == last) && (forall f | f in init :: f in fields);
      RefusedExactly(env, user, init);
    }
  }

  predicate SameKind(f: UserField, g: UserField) {
    (f.Email? && g.Email?) || (f.Password? && g.Password?) || (f.UserRole? && g.UserRole?) || (f.UserEnabled? && g.UserEnabled?)
  }

  predicate ShowsField(user: User, f: UserField) {
    match f
    case Email(email) => user.email == email
    case Password(newHash) => newHash == Some(user.passwordHash)
    case UserRole(role) => user.role == role
    case UserEnabled(on) => user.enabled == on
  }

  /** An accepted update with one value per field sets the fields it names. */
  lemma {:induction false} UpdateSetsFields(env: Env, user: User, fields: seq<UserField>)
    requires forall f | f in fields :: Acceptable(env, f)
    requires forall i, j | 0 <= i < j < |fields| :: !SameKind(fields[i], fields[j])
    ensures forall f | f in fields :: ShowsField(ApplyFields(env, user, fields).0, f)
  {
    if fields != [] {
      var init, last := fields[..|fields| - 1], fields[|fields| - 1];
      assert fields == init + [last];
      UpdateSetsFields(env, user, init);
      RefusedExactly(env, user, init);
      assert forall f | f in init :: !SameKind(f, last);
    }
  }

  /** Accepted or refused, an update leaves alone the fields that it does not name. */
  lemma {:induction false} UpdateKeepsOthers(env: Env, user: User, fields: seq<UserField>)
    ensures var r := ApplyFields(env, user, fields).0;
            && ((forall f | f in fields :: !f.Email?) ==> r.email == user.email)
            && ((forall f | f in fields :: !f.Password?) ==> r.passwordHash == user.passwordHash)
            && ((forall f | f in fields :: !f.UserRole?) ==> r.role == user.role)
            && ((forall f | f in fields :: !f.UserEnabled?) ==> r.enabled == user.enabled)
  {
    if fields != [] {
      var init, last := fields[..|fields| - 1], fields[|fields| - 1];
      assert forall f | f in init :: f in fields;
      assert last in fields;
      UpdateKeepsOthers(env, user, init);
    }
  }

  /** A map of updates yields each field at most once. */
  predicate DistinctKinds(fields: seq<UserField>) {
    forall i, j | 0 <= i < j < |fields| :: !SameKind(fields[i], fields[j])
  }

  /** Where the loop stops: the first unacceptable field, or the end. */
  function FirstRefused(env: Env, fields: seq<UserField>): (i: nat)
    ensures i <= |fields|
  {
    if fields == [] then 0
    else
      var i := FirstRefused(env, fields[..|fields| - 1]);
      if i < |fields| - 1 || !Acceptable(env, fields[|fields| - 1]) then i else i + 1
  }

  /** What a refused update leaves in the record is what the fields before the refused one say. */
  lemma {:induction false} AppliedUpToRefused(env: Env, user: User, fields: seq<UserField>)
    ensures var i := FirstRefused(env, fields);
            && (forall f | f in fields[..i] :: Acceptable(env, f)) && (i < |fields| ==> !Acceptable(env, fields[i]))
            && ApplyFields(env, user, fields).0 == ApplyFields(env, user, fields[..i]).0
            && (ApplyFields(env, user, fields).1 == None <==> i == |fields|)
  {
    if fields != [] {
      var n := |fields| - 1;
      var init, last, i := fields[..n], fields[n], FirstRefused(env, fields[..n]);
      AppliedUpToRefused(env, user, init);
      assert init[..i] == fields[..i];
      assert fields[..n + 1] == fields && fields == init + [last];
      if i == n {
        assert init[..n] == init;
      }
    }
  }

  /** An accepted list of fields leaves the record as it is exactly if it shows every one of them already. */
  lemma {:induction false} KeepsRecordExactly(env: Env, user: User, fields: seq<UserField>)
    requires DistinctKinds(fields) && forall f | f in fields :: Acceptable(env, f)
    ensures ApplyFields(env, user, fields).0 == user <==> forall f | f in fields :: ShowsField(user, f)
  {
    UpdateSetsFields(env, user, fields);
    if forall f | f in fields :: ShowsField(user, f) {
      NothingToChange(env, user, fields);
    }
  }

  lemma {:induction false} NothingToChange(env: Env, user: User, fields: seq<UserField>)
    requires forall f | f in fields :: Acceptable(env, f) && ShowsField(user, f)
    ensures ApplyFields(env, user, fields) == (user, None)
  {
    if fields != [] {
      var init, last := fields[..|fields| - 1], fields[|fields| - 1];
      assert fields == init + [last];
      assert last in fields;
      NothingToChange(env, user, init);
    }
  }

  lemma PublishSameUser(s: State, id: int, now: int)
    requires Steady(s, now) && id in s.rows.users
    ensures PublishUser(s, s.rows.users[id]) == s
  {
    var after := PublishUser(s, s.rows.users[id]);
    assert after.rows.users == s.rows.users;
    assert after.credCache == s.credCache;
  }

  /** A refused update changes nothing exactly if storage hands out copies, or the record shows every field before the refused one. */
  lemma RefusedUpdateChangesNothing(env: Env, s: State, id: int, fields: seq<UserField>, now: int)
    requires Steady(s, now) && id in s.rows.users && DistinctKinds(fields)
    requires AfterUpdateUser(env, s, id, fields).1.Failed?
    ensures AfterUpdateUser(env, s, id, fields).0 == s <==>
            !env.sharing || forall f | f in fields[..FirstRefused(env, fields)] :: ShowsField(s.rows.users[id], f)
  {
    var row, i := s.rows.users[id], FirstRefused(env, fields);
    AppliedUpToRefused(env, row, fields);
    KeepsRecordExactly(env, row, fields[..i]);
    PublishSameUser(s, id, now);
    var changed := ApplyFields(env, row, fields).0;
    assert PublishUser(s, changed).rows.users[id] == changed;
  }

  // ----- the same for keys

  predicate AcceptableKey(env: Env, rows: Rows, key: APIKey, f: KeyField, now: int) {
    match f
    case KeyName(name) => name == key.name || !NameTaken(rows, key.userID, name, Some(key.id))
    case KeyRole(role) => env.validRole(role)
    case KeyEnabled(_) => true
    case KeyExpiry(expiresAt) => expiresAt >= now
  }

  predicate ShowsKeyField(key: APIKey, f: KeyField) {
    match f
    case KeyName(name) => key.name == name
    case KeyRole(role) => key.role == role
    case KeyEnabled(on) => key.enabled == on
    case KeyExpiry(expiresAt) => key.expiresAt == expiresAt
  }

  predicate SameKeyKind(f: KeyField, g: KeyField) {
    (f.KeyName? && g.KeyName?) || (f.KeyRole? && g.KeyRole?) || (f.KeyEnabled? && g.KeyEnabled?) || (f.KeyExpiry? && g.KeyExpiry?)
  }

  predicate DistinctKeyKinds(fields: seq<KeyField>) {
    forall i, j | 0 <= i < j < |fields| :: !SameKeyKind(fields[i], fields[j])
  }

  function FirstRefusedKey(env: Env, rows: Rows, key: APIKey, fields: seq<KeyField>, now: int): (i: nat)
    ensures i <= |fields|
  {
    if fields == [] then 0
    else
      var i := FirstRefusedKey(env, rows, key, fields[..|fields| - 1], now);
      if i < |fields| - 1 || !AcceptableKey(env, rows, key, fields[|fields| - 1], now) then i else i + 1
  }

  lemma {:induction false} NameUntouched(env: Env, rows: Rows, key: APIKey, fields: seq<KeyField>, now: int)
    ensures var r := ApplyKeyFields(env, rows, key, fields, now).0;
            r.userID == key.userID && ((forall f | f in fields :: !f.KeyName?) ==> r.name == key.name)
  {
    if fields != [] {
      var init, last := fields[..|fields| - 1], fields[|fields| - 1];
      assert fields == init + [last];
      assert last in fields;
      NameUntouched(env, rows, key, init, now);
    }
  }

  /** One more field is judged as it would be on the record as stored. */
  lemma JudgedAsStored(env: Env, rows: Rows, key: APIKey, fields: seq<KeyField>, now: int)
    requires fields != [] && DistinctKeyKinds(fields)
    ensures var init, last := fields[..|fields| - 1], fields[|fields| - 1];
            ApplyKeyField(env, rows, ApplyKeyFields(env, rows, key, init, now).0, last, now).1 == None <==>
            AcceptableKey(env, rows, key, last, now)
  {
    var init, last := fields[..|fields| - 1], fields[|fields| - 1];
    NameUntouched(env, rows, key, init, now);
    assert last.KeyName? ==> forall f | f in init :: !f.KeyName?;
  }

  lemma {:induction false} KeyAppliedUpToRefused(env: Env, rows: Rows, key: APIKey, fields: seq<KeyField>, now: int)
    requires DistinctKeyKinds(fields)
    ensures var i := FirstRefusedKey(env, rows, key, fields, now);
            && (forall f | f in fields[..i] :: AcceptableKey(env, rows, key, f, now))
            && (i < |fields| ==> !AcceptableKey(env, rows, key, fields[i], now))
            && ApplyKeyFields(env, rows, key, fields, now).0 == ApplyKeyFields(env, rows, key, fields[..i], now).0
            && (ApplyKeyFields(env, rows, key, fields, now).1 == None <==> i == |fields|)
  {
    if fields != [] {
      var n := |fields| - 1;
      var init, last, i := fields[..n], fields[n], FirstRefusedKey(env, rows, key, fields[..n], now);
      KeyAppliedUpToRefused(env, rows, key, init, now);
      JudgedAsStored(env, rows, key, fields, now);
      assert init[..i] == fields[..i];
      assert fields[..n + 1] == fields && fields == init + [last];
      if i == n {
        assert init[..n] == init;
      }
    }
  }

  /** An accepted list of key fields sets every field it names. */
  lemma {:induction false} KeyUpdateSetsFields(env: Env, rows: Rows, key: APIKey, fields: seq<KeyField>, now: int)
    requires DistinctKeyKinds(fields) && ApplyKeyFields(env, rows, key, fields, now).1 == None
    ensures forall f | f in fields :: ShowsKeyField(ApplyKeyFields(env, rows, key, fields, now).0, f)
  {
    if fields != [] {
      var init, last := fields[..|fields| - 1], fields[|fields| - 1];
      assert fields == init + [last];
      KeyUpdateSetsFields(env, rows, key, init, now);
      assert forall f | f in init :: !SameKeyKind(f, last);
    }
  }

  lemma {:induction false} NoKeyToChange(env: Env, rows: Rows, key: APIKey, fields: seq<KeyField>, now: int)
    requires forall f | f in fields :: AcceptableKey(env, rows, key, f, now) && ShowsKeyField(key, f)
    ensures ApplyKeyFields(env, rows, key, fields, now) == (key, None)
  {
    if fields != [] {
      var init, last := fields[..|fields| - 1], fields[|fields| - 1];
      assert fields == init + [last];
      assert last in fields;
      NoKeyToChange(env, rows, key, init, now);
    }
  }

  lemma PublishSameKey(s: State, id: int)
    requires RowsOk(s.rows) && KeysFresh(s) && id in s.rows.keys
    ensures PublishKey(s, s.rows.keys[id]) == s
  {
    var after := PublishKey(s, s.rows.keys[id]);
    assert after.rows.keys == s.rows.keys;
    assert after.keyCache == s.keyCache;
  }

  /** A refused update of a key changes nothing in exactly the same cases. */
  lemma RefusedKeyUpdateChangesNothing(env: Env, s: State, id: int, fields: seq<KeyField>, now: int)
    requires Steady(s, now) && id in s.rows.keys && DistinctKeyKinds(fields)
    requires AfterUpdateAPIKey(env, s, id, fields, now).1.Failed?
    ensures AfterUpdateAPIKey(env, s, id, fields, now).0 == s <==>
            !env.sharing ||
            forall f | f in fields[..FirstRefusedKey(env, s.rows, s.rows.keys[id], fields, now)] :: ShowsKeyField(s.rows.keys[id], f)
  {
    var row := s.rows.keys[id];
    var i := FirstRefusedKey(env, s.rows, row, fields, now);
    KeyAppliedUpToRefused(env, s.rows, row, fields, now);
    KeyPrefixAccepted(env, s.rows, row, fields, i, now);
    KeyUpdateSetsFields(env, s.rows, row, fields[..i], now);
    if forall f | f in fields[..i] :: ShowsKeyField(row, f) {
      NoKeyToChange(env, s.rows, row, fields[..i], now);
    }
    PublishSameKey(s, id);
    var changed := ApplyKeyFields(env, s.rows, row, fields, now).0;
    assert PublishKey(s, changed).rows.keys[id] == changed;
  }

  lemma {:induction false} KeyPrefixAccepted(env: Env, rows: Rows, key: APIKey, fields: seq<KeyField>, i: nat, now: int)
    requires i <= |fields| && DistinctKeyKinds(fields) && forall f | f in fields[..i] :: AcceptableKey(env, rows, key, f, now)
    ensures ApplyKeyFields(env, rows, key, fields[..i], now).1 == None
  {
    if i > 0 {
      var prefix := fields[..i];
      assert prefix[..i - 1] == fields[..i - 1];
      assert prefix[i - 1] in prefix;
      assert forall f | f in fields[..i - 1] :: f in prefix;
      KeyPrefixAccepted(env, rows, key, fields, i - 1, now);
      JudgedAsStored(env, rows, key, prefix, now);
    }
  }

  /** A role that comes before a refused expiry stays: the key answers with it from then on, cached or not. */
  lemma RefusedRoleStays(env: Env, cfg: Config, s: State, id: int, raw: string, role: string, past: int, now: int)
    requires Steady(s, now) && env.sharing && id in s.rows.keys && s.rows.keys[id].hash == Hash(raw)
    requires env.validRole(role) && past < now
    ensures var (after, answer) := AfterUpdateAPIKey(env, s, id, [KeyRole(role), KeyExpiry(past)], now);
            && answer == Failed(ExpiryInPast)
            && AfterValidateAPIKey(cfg, after, raw, now).1 == Judge(s.rows.keys[id].(role := role), now)
  {
    var row, fields := s.rows.keys[id], [KeyRole(role), KeyExpiry(past)];
    assert fields[..1] == [KeyRole(role)] && [KeyRole(role)][..0] == [];
    assert ApplyKeyFields(env, s.rows, row, [KeyRole(role)], now) == (row.(role := role), None);
    assert ApplyKeyFields(env, s.rows, row, fields, now) == (row.(role := role), Some(ExpiryInPast));
    var after := AfterUpdateAPIKey(env, s, id, fields, now).0;
    StepSteady(env, cfg, s, UpdateAPIKey(id, fields), now, now);
    KeyFollowsRows(env, cfg, after, raw, now);
    assert KeyByHash(after.rows, Hash(raw)) == Some(row.(role := role));
  }

  /** Each key ID is cached under at most one hash, so stopping at the first match forgets them all. */
  lemma OneHashPerKey(env: Env, cfg: Config, s: State, now: int, h: Hash, i: Hash)
    requires Coherent(env, cfg, s, now)
    requires h in s.keyCache && i in s.keyCache && s.keyCache[h].id == s.keyCache[i].id
    ensures h == i
  {
  }

  predicate ColonFree(op: Op) {
    op.ValidateCredentials? ==> ':' !in op.username
  }

  function FirstColon(s: string): (i: nat)
    requires ':' in s
    ensures i < |s| && s[i] == ':' && ':' !in s[..i]
  {
    if s[0] == ':' then 0 else 1 + FirstColon(s[1..])
  }

  lemma {:induction false} FirstColonAt(u: string, p: string)
    requires ':' !in u
    ensures FirstColon(u + ":" + p) == |u|
  {
    if u != [] {
      assert (u + ":" + p)[1..] == u[1..] + ":" + p;
      assert u[0] in u && (u + ":" + p)[0] == u[0];
      FirstColonAt(u[1..], p);
    }
  }

  /** Splitting at the first colon: two colon-free names with the same digest input are the same name and password. */
  lemma CredKeyInjective(u: string, p: string, v: string, q: string)
    requires ':' !in u && ':' !in v && CredKey(u, p) == CredKey(v, q)
    ensures u == v && p == q
  {
    var a, b := u + ":" + p, v + ":" + q;
    assert a == b;
    FirstColonAt(u, p);
    FirstColonAt(v, q);
    assert a[..|u|] == u && b[..|v|] == v;
    assert a[|u| + 1..] == p && b[|v| + 1..] == q;
  }

  lemma NamesOwn(user: User, password: string)
    ensures Names(user, CredKey(user.username, password)) && Secret(user, CredKey(user.username, password)) == password
  {
    var text := user.username + ":" + password;
    assert text[..|user.username|] == user.username && text[|user.username| + 1..] == password;
  }

  /** A cached credential is of the user that was asked for, with the password that was given. */
  lemma CachedIsOwn(s: State, username: string, password: string, now: int)
    requires RowsOk(s.rows) && CredentialsNamed(s, now) && ':' !in username && CredKey(username, password) in s.credCache
    ensures var user := s.credCache[CredKey(username, password)].user;
            UserByName(s.rows, username) == Some(user) && Secret(user, CredKey(username, password)) == password
  {
    var h := CredKey(username, password);
    var user := s.credCache[h].user;
    var rest := h.preimage[|user.username| + 1..];
    assert h == CredKey(user.username, rest) by {
      assert h.preimage == h.preimage[..|user.username|] + [h.preimage[|user.username|]] + rest;
    }
    CredKeyInjective(username, password, user.username, rest);
  }

  /** A usable credential in the cache answers as the rows do. */
  lemma CachedCredential(env: Env, cfg: Config, s: State, username: string, password: string, now: int)
    requires Coherent(env, cfg, s, now) && ':' !in username && Unexpired(cfg, s, CredKey(username, password), now)
    ensures var user := s.credCache[CredKey(username, password)].user;
            CheckCredentials(env, s.rows, username, password) == if user.enabled then UserOk(user) else Failed(UserDisabled)
  {
    CachedIsOwn(s, username, password, now);
  }

  // ----- every operation keeps the caches coherent

  lemma InsertUserOk(rows: Rows, user: User)
    requires RowsOk(rows) && user.username !in rows.usersByName
    ensures RowsOk(InsertUser(rows, user))
  {
  }

  lemma RemoveUserOk(rows: Rows, id: int)
    requires RowsOk(rows) && id in rows.users
    ensures RowsOk(RemoveUser(rows, id))
  {
  }

  lemma InsertKeyOk(rows: Rows, key: APIKey)
    requires RowsOk(rows) && key.hash !in rows.keysByHash
    ensures RowsOk(InsertKey(rows, key))
  {
  }

  lemma RemoveKeyOk(rows: Rows, id: int)
    requires RowsOk(rows) && id in rows.keys
    ensures RowsOk(RemoveKey(rows, id))
  {
  }

  lemma WriteUserCoherent(env: Env, cfg: Config, s: State, user: User, now: int)
    requires Coherent(env, cfg, s, now) && user.id in s.rows.users && user.username == s.rows.users[user.id].username
    ensures Coherent(env, cfg, WriteUser(s, user), now)
  {
  }

  lemma WriteKeyCoherent(env: Env, cfg: Config, s: State, key: APIKey, now: int)
    requires Coherent(env, cfg, s, now) && key.id in s.rows.keys && key.hash == s.rows.keys[key.id].hash
    ensures Coherent(env, cfg, WriteKey(s, key), now)
  {
  }

  lemma RefreshedCoherent(env: Env, cfg: Config, s: State, listed: bool, now: int)
    requires RowsOk(s.rows) && CredentialsNamed(s, now) && CredentialsHonest(env, cfg, s, now)
    requires (cfg.keyInterval > 0 && listed) || KeysFresh(s)
    ensures Coherent(env, cfg, AfterRefresh(cfg, s, listed).0, now)
  {
    forall h | h in Refreshed(s.rows)
      ensures var key := Refreshed(s.rows)[h];
              key.hash == h && key.id in s.rows.keys && s.rows.keys[key.id] == key
    {
      var id := s.rows.keysByHash[h];
      assert id in s.rows.keys && s.rows.keys[id].id == id;
    }
  }

  lemma CreateUserCoherent(env: Env, cfg: Config, s: State, username: string, email: string, newHash: Option<string>, role: string,
                           enabled: bool, now: int)
    requires Coherent(env, cfg, s, now)
    ensures Coherent(env, cfg, AfterCreateUser(env, s, username, email, newHash, role, enabled).0, now)
  {
    if username !in s.rows.usersByName && newHash.Some? {
      InsertUserOk(s.rows, User(s.rows.nextUserID, username, email, newHash.value, role, enabled));
    }
  }

  lemma PublishUserSteady(s: State, user: User, now: int)
    requires Steady(s, now) && user.id in s.rows.users && user.username == s.rows.users[user.id].username
    ensures Steady(PublishUser(s, user), now)
  {
  }

  /** A half-applied change of the stored record keeps the caches honest exactly if it is not harmful. */
  lemma PublishUserCoherent(env: Env, cfg: Config, s: State, user: User, now: int)
    requires Coherent(env, cfg, s, now) && user.id in s.rows.users && user.username == s.rows.users[user.id].username
    ensures Coherent(env, cfg, PublishUser(s, user), now) <==> !Spoilt(env, cfg, s, user, now)
  {
    PublishUserSteady(s, user, now);
    PublishUserHonest(env, cfg, s, user, now);
  }

  lemma PublishUserHonest(env: Env, cfg: Config, s: State, user: User, now: int)
    requires CredentialsHonest(env, cfg, s, now)
    ensures CredentialsHonest(env, cfg, PublishUser(s, user), now) <==> !Spoilt(env, cfg, s, user, now)
  {
    var after := PublishUser(s, user);
    if Spoilt(env, cfg, s, user, now) {
      var h :| Unexpired(cfg, s, h, now) && s.credCache[h].user.id == user.id && !Accepts(env, user, h);
      assert Unexpired(cfg, after, h, now) && after.credCache[h].user == user;
    } else {
      forall h | Unexpired(cfg, after, h, now) && after.credCache[h].user.enabled
        ensures Accepts(env, after.credCache[h].user, h)
      {
        assert Unexpired(cfg, s, h, now);
      }
    }
  }

  lemma UpdateUserCoherent(env: Env, cfg: Config, s: State, id: int, fields: seq<UserField>, now: int)
    requires Coherent(env, cfg, s, now)
    ensures Coherent(env, cfg, AfterUpdateUser(env, s, id, fields).0, now) <==> !Harmful(env, cfg, s, UpdateUser(id, fields), now)
  {
    if id in s.rows.users {
      var changed := ApplyFields(env, s.rows.users[id], fields).0;
      WriteUserCoherent(env, cfg, s, changed, now);
      PublishUserCoherent(env, cfg, s, changed, now);
    }
  }

  lemma DeleteUserCoherent(env: Env, cfg: Config, s: State, id: int, now: int)
    requires Coherent(env, cfg, s, now)
    ensures Coherent(env, cfg, AfterDeleteUser(s, id).0, now)
  {
    if id in s.rows.users {
      RemoveUserOk(s.rows, id);
    }
  }

  lemma ChangePasswordCoherent(env: Env, cfg: Config, s: State, id: int, oldPassword: string, newHash: Option<string>, now: int)
    requires Coherent(env, cfg, s, now)
    ensures Coherent(env, cfg, AfterChangePassword(env, s, id, oldPassword, newHash).0, now)
  {
    if id in s.rows.users && newHash.Some? {
      WriteUserCoherent(env, cfg, s, s.rows.users[id].(passwordHash := newHash.value), now);
    }
  }

  /** A credential that was just checked against its row may be cached. */
  lemma StoreCredentialCoherent(env: Env, cfg: Config, s: State, user: User, password: string, now: int)
    requires Coherent(env, cfg, s, now) && ':' !in user.username
    requires user.id in s.rows.users && s.rows.users[user.id] == user && env.matches(user.passwordHash, password)
    ensures Coherent(env, cfg, s.(credCache := s.credCache[CredKey(user.username, password) := Entry(user, now)]), now)
  {
    NamesOwn(user, password);
    var h, after := CredKey(user.username, password), s.(credCache := s.credCache[CredKey(user.username, password) := Entry(user, now)]);
    forall i | Unexpired(cfg, after, i, now) && after.credCache[i].user.enabled
      ensures Accepts(env, after.credCache[i].user, i)
    {
      assert i != h ==> Unexpired(cfg, s, i, now);
    }
  }

  lemma DropCredentialCoherent(env: Env, cfg: Config, s: State, h: Hash, now: int)
    requires Coherent(env, cfg, s, now)
    ensures Coherent(env, cfg, s.(credCache := s.credCache - {h}), now)
  {
    var after := s.(credCache := s.credCache - {h});
    assert forall i | Unexpired(cfg, after, i, now) :: Unexpired(cfg, s, i, now);
  }

  lemma CredentialsCoherent(env: Env, cfg: Config, s: State, username: string, password: string, now: int)
    requires Coherent(env, cfg, s, now) && ':' !in username
    ensures Coherent(env, cfg, AfterValidateCredentials(env, cfg, s, username, password, now).0, now)
  {
    var answer := CheckCredentials(env, s.rows, username, password);
    DropCredentialCoherent(env, cfg, s, CredKey(username, password), now);
    if answer.UserOk? {
      StoreCredentialCoherent(env, cfg, s, answer.user, password, now);
    }
  }

  lemma NewKeySteady(cfg: Config, s: State, key: APIKey, now: int)
    requires Steady(s, now) && key.hash !in s.rows.keysByHash && key.id == s.rows.nextKeyID
    ensures Steady(CacheKey(cfg, s.(rows := InsertKey(s.rows, key)), key), now)
  {
    InsertKeyOk(s.rows, key);
  }

  lemma CreateKeySteady(env: Env, cfg: Config, s: State, userID: int, name: string, role: string, expiresAt: int,
                        raw: string, now: int)
    requires Steady(s, now)
    ensures var after := AfterCreateAPIKey(env, cfg, s, userID, name, role, expiresAt, raw, now).0;
            Steady(after, now) && after.credCache == s.credCache
  {
    if Hash(raw) !in s.rows.keysByHash {
      NewKeySteady(cfg, s, APIKey(s.rows.nextKeyID, userID, Hash(raw), name, role, true, expiresAt), now);
    }
  }

  lemma CreateKeyCoherent(env: Env, cfg: Config, s: State, userID: int, name: string, role: string, expiresAt: int,
                          raw: string, now: int)
    requires Coherent(env, cfg, s, now)
    ensures Coherent(env, cfg, AfterCreateAPIKey(env, cfg, s, userID, name, role, expiresAt, raw, now).0, now)
  {
    CreateKeySteady(env, cfg, s, userID, name, role, expiresAt, raw, now);
    SameCredentials(env, cfg, s, AfterCreateAPIKey(env, cfg, s, userID, name, role, expiresAt, raw, now).0, now);
  }

  lemma SameCredentials(env: Env, cfg: Config, s: State, after: State, now: int)
    requires CredentialsHonest(env, cfg, s, now) && after.credCache == s.credCache
    ensures CredentialsHonest(env, cfg, after, now)
  {
    assert forall h | Unexpired(cfg, after, h, now) :: Unexpired(cfg, s, h, now);
  }

  lemma RevokeCoherent(env: Env, cfg: Config, s: State, id: int, now: int)
    requires Coherent(env, cfg, s, now)
    ensures Coherent(env, cfg, AfterRevokeAPIKey(s, id).0, now)
  {
    if id in s.rows.keys {
      WriteKeyCoherent(env, cfg, s, s.rows.keys[id].(enabled := false), now);
    }
  }

  /** A half-applied change of a stored key shows in its cached copy too, so nothing comes apart. */
  lemma PublishKeyCoherent(env: Env, cfg: Config, s: State, key: APIKey, now: int)
    requires Coherent(env, cfg, s, now) && key.id in s.rows.keys && key.hash == s.rows.keys[key.id].hash
    ensures Coherent(env, cfg, PublishKey(s, key), now)
  {
  }

  lemma UpdateKeyCoherent(env: Env, cfg: Config, s: State, id: int, fields: seq<KeyField>, now: int)
    requires Coherent(env, cfg, s, now)
    ensures Coherent(env, cfg, AfterUpdateAPIKey(env, s, id, fields, now).0, now)
  {
    if id in s.rows.keys {
      var changed := ApplyKeyFields(env, s.rows, s.rows.keys[id], fields, now).0;
      WriteKeyCoherent(env, cfg, s, changed, now);
      PublishKeyCoherent(env, cfg, s, changed, now);
    }
  }

  lemma DeleteKeyCoherent(env: Env, cfg: Config, s: State, id: int, now: int)
    requires Coherent(env, cfg, s, now)
    ensures Coherent(env, cfg, AfterDeleteAPIKey(s, id).0, now)
  {
    if id in s.rows.keys {
      RemoveKeyOk(s.rows, id);
    }
  }

  lemma ValidateKeyCoherent(env: Env, cfg: Config, s: State, raw: string, now: int)
    requires Coherent(env, cfg, s, now)
    ensures Coherent(env, cfg, AfterValidateAPIKey(cfg, s, raw, now).0, now)
  {
  }

  lemma RotateCoherent(env: Env, cfg: Config, s: State, id: int, expiresAt: int, raw: string, stamp: string, now: int)
    requires Coherent(env, cfg, s, now)
    ensures Coherent(env, cfg, AfterRotateAPIKey(env, cfg, s, id, expiresAt, raw, stamp, now).0, now)
  {
    if id in s.rows.keys {
      var key := s.rows.keys[id];
      CreateKeyCoherent(env, cfg, s, key.userID, key.name + stamp, key.role, expiresAt, raw, now);
      var s1 := AfterCreateAPIKey(env, cfg, s, key.userID, key.name + stamp, key.role, expiresAt, raw, now).0;
      RevokeCoherent(env, cfg, s1, id, now);
    }
  }

  /** Every operation that is not harmful keeps the invariant, for the time of the operation. */
  lemma StepCoherent(env: Env, cfg: Config, s: State, op: Op, before: int, now: int)
    requires Coherent(env, cfg, s, before) && before <= now && ColonFree(op)
    ensures !Harmful(env, cfg, s, op, now) ==> Coherent(env, cfg, Step(env, cfg, s, op, now).0, now)
  {
    assert Coherent(env, cfg, s, now);
    match op
    case CreateUser(username, email, newHash, role, enabled) =>
      CreateUserCoherent(env, cfg, s, username, email, newHash, role, enabled, now);
    case UpdateUser(id, fields) => UpdateUserCoherent(env, cfg, s, id, fields, now);
    case DeleteUser(id) => DeleteUserCoherent(env, cfg, s, id, now);
    case ChangePassword(id, oldPassword, newHash) => ChangePasswordCoherent(env, cfg, s, id, oldPassword, newHash, now);
    case ValidateCredentials(username, password) => CredentialsCoherent(env, cfg, s, username, password, now);
    case CreateAPIKey(userID, name, role, expiresAt, raw) =>
      CreateKeyCoherent(env, cfg, s, userID, name, role, expiresAt, raw, now);
    case RevokeAPIKey(id) => RevokeCoherent(env, cfg, s, id, now);
    case ValidateAPIKey(raw) => ValidateKeyCoherent(env, cfg, s, raw, now);
    case UpdateAPIKey(id, fields) => UpdateKeyCoherent(env, cfg, s, id, fields, now);
    case DeleteAPIKey(id) => DeleteKeyCoherent(env, cfg, s, id, now);
    case RotateAPIKey(id, expiresAt, raw, stamp) => RotateCoherent(env, cfg, s, id, expiresAt, raw, stamp, now);
    case RefreshCache(listed) => RefreshedCoherent(env, cfg, s, listed, now);
  }

  /** Without a lifetime for cached credentials being steady is being coherent. */
  lemma SteadyIsCoherent(env: Env, cfg: Config, s: State, now: int)
    requires cfg.userTTL == 0
    ensures Steady(s, now) <==> Coherent(env, cfg, s, now)
  {
  }

  lemma CheckSteady(env: Env, cfg: Config, s: State, username: string, password: string, now: int)
    requires Steady(s, now) && ':' !in username
    ensures Steady(AfterValidateCredentials(env, cfg, s, username, password, now).0, now)
  {
    var answer := CheckCredentials(env, s.rows, username, password);
    if answer.UserOk? {
      NamesOwn(answer.user, password);
    }
  }

  lemma LifetimeIrrelevant(env: Env, cfg: Config, s: State, op: Op, now: int)
    requires !op.ValidateCredentials?
    ensures Step(env, cfg, s, op, now) == Step(env, cfg.(userTTL := 0), s, op, now)
  {
  }

  lemma StepSteady(env: Env, cfg: Config, s: State, op: Op, before: int, now: int)
    requires Steady(s, before) && before <= now && ColonFree(op)
    ensures Steady(Step(env, cfg, s, op, now).0, now)
  {
    if op.ValidateCredentials? {
      CheckSteady(env, cfg, s, op.username, op.password, now);
    } else {
      var off := cfg.(userTTL := 0);
      SteadyIsCoherent(env, off, s, before);
      LifetimeIrrelevant(env, cfg, s, op, now);
      StepCoherent(env, off, s, op, before, now);
      SteadyIsCoherent(env, off, Step(env, off, s, op, now).0, now);
    }
  }

  // ----- the cached service refines the uncached one

  lemma CredentialsFollowRows(env: Env, cfg: Config, s: State, username: string, password: string, now: int)
    requires Coherent(env, cfg, s, now) && ':' !in username
    ensures AfterValidateCredentials(env, cfg, s, username, password, now).1 == CheckCredentials(env, s.rows, username, password)
    ensures AfterValidateCredentials(env, cfg, s, username, password, now).0.rows == s.rows
  {
    if Unexpired(cfg, s, CredKey(username, password), now) {
      CachedCredential(env, cfg, s, username, password, now);
    }
  }

  function CheckKey(rows: Rows, raw: string, now: int): Answer {
    var key := KeyByHash(rows, Hash(raw));
    if key.None? then Failed(KeyNotFound) else Judge(key.value, now)
  }

  lemma KeyFollowsRows(env: Env, cfg: Config, s: State, raw: string, now: int)
    requires Steady(s, now)
    ensures AfterValidateAPIKey(cfg, s, raw, now).1 == CheckKey(s.rows, raw, now)
    ensures AfterValidateAPIKey(cfg, s, raw, now).0.rows == s.rows
  {
  }

  lemma CreateKeyFollowsRows(env: Env, cfg: Config, s: State, other: Config, t: State, userID: int, name: string, role: string,
                             expiresAt: int, raw: string, now: int)
    requires s.rows == t.rows
    ensures AfterCreateAPIKey(env, cfg, s, userID, name, role, expiresAt, raw, now).1 ==
            AfterCreateAPIKey(env, other, t, userID, name, role, expiresAt, raw, now).1
    ensures AfterCreateAPIKey(env, cfg, s, userID, name, role, expiresAt, raw, now).0.rows ==
            AfterCreateAPIKey(env, other, t, userID, name, role, expiresAt, raw, now).0.rows
  {
  }

  lemma UserOpsFollowRows(env: Env, s: State, t: State, op: Op)
    requires s.rows == t.rows && (op.CreateUser? || op.UpdateUser? || op.DeleteUser? || op.ChangePassword?)
    ensures Step(env, UNCACHED, s, op, 0).1 == Step(env, UNCACHED, t, op, 0).1
    ensures Step(env, UNCACHED, s, op, 0).0.rows == Step(env, UNCACHED, t, op, 0).0.rows
  {
  }

  lemma KeyWritesFollowRows(env: Env, s: State, t: State, op: Op, now: int)
    requires s.rows == t.rows && (op.UpdateAPIKey? || op.DeleteAPIKey? || op.RevokeAPIKey?)
    ensures Step(env, UNCACHED, s, op, now).1 == Step(env, UNCACHED, t, op, now).1
    ensures Step(env, UNCACHED, s, op, now).0.rows == Step(env, UNCACHED, t, op, now).0.rows
  {
  }

  lemma RotateFollowsRows(env: Env, cfg: Config, s: State, other: Config, t: State, id: int, expiresAt: int, raw: string,
                          stamp: string, now: int)
    requires s.rows == t.rows
    ensures AfterRotateAPIKey(env, cfg, s, id, expiresAt, raw, stamp, now).1 ==
            AfterRotateAPIKey(env, other, t, id, expiresAt, raw, stamp, now).1
    ensures AfterRotateAPIKey(env, cfg, s, id, expiresAt, raw, stamp, now).0.rows ==
            AfterRotateAPIKey(env, other, t, id, expiresAt, raw, stamp, now).0.rows
  {
    if id in s.rows.keys {
      var key := s.rows.keys[id];
      CreateKeyFollowsRows(env, cfg, s, other, t, key.userID, key.name + stamp, key.role, expiresAt, raw, now);
    }
  }

  /** What an operation does and answers is settled by the rows: caches, and their settings, do not matter. */
  lemma StepFollowsRows(env: Env, cfg: Config, s: State, other: Config, t: State, op: Op, now: int)
    requires Coherent(env, cfg, s, now) && Coherent(env, other, t, now) && s.rows == t.rows && ColonFree(op)
    ensures Step(env, cfg, s, op, now).1 == Step(env, other, t, op, now).1
    ensures Step(env, cfg, s, op, now).0.rows == Step(env, other, t, op, now).0.rows
  {
    match op
    case ValidateCredentials(username, password) =>
      CredentialsFollowRows(env, cfg, s, username, password, now);
      CredentialsFollowRows(env, other, t, username, password, now);
    case ValidateAPIKey(raw) =>
      KeyFollowsRows(env, cfg, s, raw, now);
      KeyFollowsRows(env, other, t, raw, now);
    case CreateAPIKey(userID, name, role, expiresAt, raw) =>
      CreateKeyFollowsRows(env, cfg, s, other, t, userID, name, role, expiresAt, raw, now);
    case RotateAPIKey(id, expiresAt, raw, stamp) =>
      RotateFollowsRows(env, cfg, s, other, t, id, expiresAt, raw, stamp, now);
    case RefreshCache(_) =>
    case UpdateAPIKey(_, _) => KeyWritesFollowRows(env, s, t, op, now);
    case DeleteAPIKey(_) => KeyWritesFollowRows(env, s, t, op, now);
    case RevokeAPIKey(_) => KeyWritesFollowRows(env, s, t, op, now);
    case _ => UserOpsFollowRows(env, s, t, op);
  }

  datatype Call = Call(op: Op, at: int)

  ghost predicate Timed(calls: seq<Call>, from: int) {
    && (calls != [] ==> from <= calls[0].at)
    && forall i, j | 0 <= i < j < |calls| :: calls[i].at <= calls[j].at
  }

  function Answers(env: Env, cfg: Config, s: State, calls: seq<Call>): seq<Answer>
    decreases |calls|
  {
    if calls == [] then [] else
      var (next, answer) := Step(env, cfg, s, calls[0].op, calls[0].at);
      [answer] + Answers(env, cfg, next, calls[1..])
  }

  /** No refused update of the run is harmful when it happens. */
  ghost predicate HarmlessRun(env: Env, cfg: Config, s: State, calls: seq<Call>)
    decreases |calls|
  {
    calls != [] ==>
      && !Harmful(env, cfg, s, calls[0].op, calls[0].at)
      && HarmlessRun(env, cfg, Step(env, cfg, s, calls[0].op, calls[0].at).0, calls[1..])
  }

  /** With the caches off nothing is ever usable from a cache. */
  lemma UncachedIsHarmless(env: Env, s: State, op: Op, from: int, now: int)
    requires CredentialsNamed(s, from) && from <= now
    ensures !Harmful(env, UNCACHED, s, op, now)
  {
  }

  /** One call: the answers agree, and both sides stay coherent over the same rows. */
  lemma CallsAgree(env: Env, cfg: Config, s: State, t: State, call: Call, from: int)
    requires Coherent(env, cfg, s, from) && Coherent(env, UNCACHED, t, from) && s.rows == t.rows
    requires from <= call.at && ColonFree(call.op)
    ensures var (s2, a), (t2, b) := Step(env, cfg, s, call.op, call.at), Step(env, UNCACHED, t, call.op, call.at);
            && a == b && s2.rows == t2.rows && Coherent(env, UNCACHED, t2, call.at)
            && (!Harmful(env, cfg, s, call.op, call.at) ==> Coherent(env, cfg, s2, call.at))
  {
    StepCoherent(env, cfg, s, call.op, from, call.at);
    UncachedIsHarmless(env, t, call.op, from, call.at);
    StepCoherent(env, UNCACHED, t, call.op, from, call.at);
    StepFollowsRows(env, cfg, s, UNCACHED, t, call.op, call.at);
  }

  lemma TimedRest(calls: seq<Call>, from: int)
    requires Timed(calls, from) && calls != []
    ensures Timed(calls[1..], calls[0].at) && from <= calls[0].at
  {
  }

  lemma {:induction false} RunsAgree(env: Env, cfg: Config, s: State, t: State, calls: seq<Call>, from: int)
    requires Coherent(env, cfg, s, from) && Coherent(env, UNCACHED, t, from) && s.rows == t.rows
    requires Timed(calls, from) && (forall c | c in calls :: ColonFree(c.op)) && HarmlessRun(env, cfg, s, calls)
    ensures Answers(env, cfg, s, calls) == Answers(env, UNCACHED, t, calls)
    decreases |calls|
  {
    if calls != [] {
      assert calls[0] in calls;
      TimedRest(calls, from);
      CallsAgree(env, cfg, s, t, calls[0], from);
      RunsAgree(env, cfg, Step(env, cfg, s, calls[0].op, calls[0].at).0, Step(env, UNCACHED, t, calls[0].op, calls[0].at).0,
        calls[1..], calls[0].at);
    }
  }

  /** The first `i` calls, and then a check of one more credential at the time of the last of them. */
  function Probed(calls: seq<Call>, i: nat, username: string, password: string): seq<Call>
    requires 1 <= i <= |calls|
  {
    calls[..i] + [Call(ValidateCredentials(username, password), calls[i - 1].at)]
  }

  /** After a harmful update the cache accepts a credential that the rows refuse. */
  lemma HarmShows(env: Env, cfg: Config, s: State, t: State, call: Call, from: int) returns (username: string, password: string)
    requires Coherent(env, cfg, s, from) && Coherent(env, UNCACHED, t, from) && s.rows == t.rows
    requires from <= call.at && Harmful(env, cfg, s, call.op, call.at)
    ensures ':' !in username
    ensures var s2, t2 := Step(env, cfg, s, call.op, call.at).0, Step(env, UNCACHED, t, call.op, call.at).0;
            && AfterValidateCredentials(env, cfg, s2, username, password, call.at).1.UserOk?
            && AfterValidateCredentials(env, UNCACHED, t2, username, password, call.at).1 == Failed(UserNotFound)
  {
    var op, now := call.op, call.at;
    var changed := ApplyFields(env, s.rows.users[op.id], op.userFields).0;
    var h :| Unexpired(cfg, s, h, now) && s.credCache[h].user.id == op.id && !Accepts(env, changed, h);
    username, password := changed.username, Secret(changed, h);
    assert h == CredKey(username, password) by {
      assert Names(changed, h);
      assert h.preimage == h.preimage[..|username|] + [h.preimage[|username|]] + password;
    }
    CallsAgree(env, cfg, s, t, call, from);
    var s2, t2 := Step(env, cfg, s, op, now).0, Step(env, UNCACHED, t, op, now).0;
    assert s2 == PublishUser(s, changed);
    assert t2.rows.users[op.id] == changed && t2.rows.usersByName == t.rows.usersByName;
    assert CheckCredentials(env, t2.rows, username, password) == Failed(UserNotFound);
    CredentialsFollowRows(env, UNCACHED, t2, username, password, now);
  }

  lemma {:induction false} HarmlessProbe(env: Env, cfg: Config, s: State, calls: seq<Call>, i: nat, username: string, password: string)
    requires 1 <= i <= |calls| && HarmlessRun(env, cfg, s, calls)
    ensures HarmlessRun(env, cfg, s, Probed(calls, i, username, password))
    decreases |calls|
  {
    var probed := Probed(calls, i, username, password);
    var next := Step(env, cfg, s, calls[0].op, calls[0].at).0;
    if i == 1 {
      assert probed[1..] == [Call(ValidateCredentials(username, password), calls[0].at)];
      assert probed[1..][1..] == [];
    } else {
      HarmlessProbe(env, cfg, next, calls[1..], i - 1, username, password);
      assert probed[1..] == Probed(calls[1..], i - 1, username, password);
    }
  }

  lemma ProbedTimed(calls: seq<Call>, i: nat, username: string, password: string, from: int)
    requires 1 <= i <= |calls| && Timed(calls, from) && ':' !in username && forall c | c in calls :: ColonFree(c.op)
    ensures Timed(Probed(calls, i, username, password), from)
    ensures forall c | c in Probed(calls, i, username, password) :: ColonFree(c.op)
  {
    assert forall c | c in calls[..i] :: c in calls;
  }

  lemma AnswersOfTwo(env: Env, cfg: Config, s: State, x: Call, y: Call)
    ensures var (next, first) := Step(env, cfg, s, x.op, x.at);
            Answers(env, cfg, s, [x, y]) == [first, Step(env, cfg, next, y.op, y.at).1]
  {
    var next := Step(env, cfg, s, x.op, x.at).0;
    assert [x, y][1..] == [y] && [y][1..] == [];
    assert Answers(env, cfg, next, [y]) == [Step(env, cfg, next, y.op, y.at).1];
  }

  lemma AnswersLater(env: Env, cfg: Config, s: State, calls: seq<Call>, i: nat, username: string, password: string)
    requires 1 <= i < |calls|
    ensures var (next, first) := Step(env, cfg, s, calls[0].op, calls[0].at);
            Answers(env, cfg, s, Probed(calls, i + 1, username, password))
            == [first] + Answers(env, cfg, next, Probed(calls[1..], i, username, password))
  {
    assert Probed(calls, i + 1, username, password)[1..] == Probed(calls[1..], i, username, password);
  }

  /** The two services answer some credential differently after the first `i` calls. */
  ghost predicate ToldApart(env: Env, cfg: Config, s: State, t: State, calls: seq<Call>, i: nat, username: string, password: string)
    requires 1 <= i <= |calls|
  {
    Answers(env, cfg, s, Probed(calls, i, username, password)) != Answers(env, UNCACHED, t, Probed(calls, i, username, password))
  }

  lemma HarmAtOnce(env: Env, cfg: Config, s: State, t: State, calls: seq<Call>, from: int) returns (username: string, password: string)
    requires Coherent(env, cfg, s, from) && Coherent(env, UNCACHED, t, from) && s.rows == t.rows
    requires calls != [] && from <= calls[0].at && Harmful(env, cfg, s, calls[0].op, calls[0].at)
    ensures ':' !in username && ToldApart(env, cfg, s, t, calls, 1, username, password)
  {
    username, password := HarmShows(env, cfg, s, t, calls[0], from);
    var probe := Call(ValidateCredentials(username, password), calls[0].at);
    assert Probed(calls, 1, username, password) == [calls[0], probe];
    AnswersOfTwo(env, cfg, s, calls[0], probe);
    AnswersOfTwo(env, UNCACHED, t, calls[0], probe);
  }

  lemma SameHead(x: Answer, a: seq<Answer>, b: seq<Answer>)
    requires a != b
    ensures [x] + a != [x] + b
  {
    assert ([x] + a)[1..] == a && ([x] + b)[1..] == b;
  }

  lemma HarmLater(env: Env, cfg: Config, s: State, t: State, s2: State, t2: State, calls: seq<Call>, i: nat, username: string,
                  password: string)
    requires calls != [] && Step(env, cfg, s, calls[0].op, calls[0].at).1 == Step(env, UNCACHED, t, calls[0].op, calls[0].at).1
    requires 1 <= i < |calls| && ToldApart(env, cfg, s2, t2, calls[1..], i, username, password)
    requires s2 == Step(env, cfg, s, calls[0].op, calls[0].at).0 && t2 == Step(env, UNCACHED, t, calls[0].op, calls[0].at).0
    ensures ToldApart(env, cfg, s, t, calls, i + 1, username, password)
  {
    AnswersLater(env, cfg, s, calls, i, username, password);
    AnswersLater(env, UNCACHED, t, calls, i, username, password);
    SameHead(Step(env, cfg, s, calls[0].op, calls[0].at).1, Answers(env, cfg, s2, Probed(calls[1..], i, username, password)),
      Answers(env, UNCACHED, t2, Probed(calls[1..], i, username, password)));
  }

  lemma NextStates(env: Env, cfg: Config, s: State, t: State, calls: seq<Call>, from: int) returns (s2: State, t2: State)
    requires Coherent(env, cfg, s, from) && Coherent(env, UNCACHED, t, from) && s.rows == t.rows
    requires calls != [] && from <= calls[0].at && ColonFree(calls[0].op) && !Harmful(env, cfg, s, calls[0].op, calls[0].at)
    ensures s2 == Step(env, cfg, s, calls[0].op, calls[0].at).0 && t2 == Step(env, UNCACHED, t, calls[0].op, calls[0].at).0
    ensures Coherent(env, cfg, s2, calls[0].at) && Coherent(env, UNCACHED, t2, calls[0].at) && s2.rows == t2.rows
    ensures Step(env, cfg, s, calls[0].op, calls[0].at).1 == Step(env, UNCACHED, t, calls[0].op, calls[0].at).1
  {
    CallsAgree(env, cfg, s, t, calls[0], from);
    s2, t2 := Step(env, cfg, s, calls[0].op, calls[0].at).0, Step(env, UNCACHED, t, calls[0].op, calls[0].at).0;
  }

  /** If some update of the run is harmful, some probe tells the two services apart. */
  lemma {:induction false} HarmIsFound(env: Env, cfg: Config, s: State, t: State, calls: seq<Call>, from: int)
    returns (i: nat, username: string, password: string)
    requires Coherent(env, cfg, s, from) && Coherent(env, UNCACHED, t, from) && s.rows == t.rows
    requires Timed(calls, from) && (forall c | c in calls :: ColonFree(c.op)) && !HarmlessRun(env, cfg, s, calls)
    ensures 1 <= i <= |calls| && ':' !in username && ToldApart(env, cfg, s, t, calls, i, username, password)
    decreases |calls|
  {
    TimedRest(calls, from);
    if Harmful(env, cfg, s, calls[0].op, calls[0].at) {
      i := 1;
      username, password := HarmAtOnce(env, cfg, s, t, calls, from);
    } else {
      assert calls[0] in calls;
      var s2, t2 := NextStates(env, cfg, s, t, calls, from);
      i, username, password := HarmIsFound(env, cfg, s2, t2, calls[1..], calls[0].at);
      HarmLater(env, cfg, s, t, s2, t2, calls, i, username, password);
      i := i + 1;
    }
  }

  /** A service just started: the key cache loaded from the rows, no credential cached. */
  function Started(cfg: Config, rows: Rows): State {
    AfterRefresh(cfg, State(rows, map[], map[]), true).0
  }

  lemma StartsCoherent(env: Env, cfg: Config, rows: Rows, from: int)
    requires RowsOk(rows)
    ensures Coherent(env, cfg, Started(cfg, rows), from) && Started(cfg, rows).rows == rows
  {
    RefreshedCoherent(env, cfg, State(rows, map[], map[]), true, from);
  }

  /**
    * Over every run without a harmful update, a service with its caches on gives the answers of the service with both
    * caches off: the same acceptances, the same records and roles, the same refusals.
    */
  lemma CachesAreInvisible(env: Env, cfg: Config, rows: Rows, calls: seq<Call>, from: int)
    requires RowsOk(rows) && Timed(calls, from) && forall c | c in calls :: ColonFree(c.op)
    requires HarmlessRun(env, cfg, Started(cfg, rows), calls)
    ensures Answers(env, cfg, Started(cfg, rows), calls) == Answers(env, UNCACHED, Started(UNCACHED, rows), calls)
  {
    StartsCoherent(env, cfg, rows, from);
    StartsCoherent(env, UNCACHED, rows, from);
    RunsAgree(env, cfg, Started(cfg, rows), Started(UNCACHED, rows), calls, from);
  }

  /** The premise is exact: at every point of a run every credential is answered alike if and only if no update is harmful. */
  lemma CachesAreInvisibleExactly(env: Env, cfg: Config, rows: Rows, calls: seq<Call>, from: int)
    requires RowsOk(rows) && Timed(calls, from) && forall c | c in calls :: ColonFree(c.op)
    ensures HarmlessRun(env, cfg, Started(cfg, rows), calls) <==>
            forall i, username, password | 1 <= i <= |calls| && ':' !in username ::
              Answers(env, cfg, Started(cfg, rows), Probed(calls, i, username, password)) ==
              Answers(env, UNCACHED, Started(UNCACHED, rows), Probed(calls, i, username, password))
  {
    StartsCoherent(env, cfg, rows, from);
    StartsCoherent(env, UNCACHED, rows, from);
    if HarmlessRun(env, cfg, Started(cfg, rows), calls) {
      forall i, username, password | 1 <= i <= |calls| && ':' !in username
        ensures Answers(env, cfg, Started(cfg, rows), Probed(calls, i, username, password)) ==
                Answers(env, UNCACHED, Started(UNCACHED, rows), Probed(calls, i, username, password))
      {
        HarmlessProbe(env, cfg, Started(cfg, rows), calls, i, username, password);
        ProbedTimed(calls, i, username, password, from);
        CachesAreInvisible(env, cfg, rows, Probed(calls, i, username, password), from);
      }
    } else {
      var i, username, password := HarmIsFound(env, cfg, Started(cfg, rows), Started(UNCACHED, rows), calls, from);
      assert ToldApart(env, cfg, Started(cfg, rows), Started(UNCACHED, rows), calls, i, username, password);
    }
  }

  /** With a storage that hands out copies no update is harmful. */
  lemma {:induction false} CopiesAreHarmless(env: Env, cfg: Config, s: State, calls: seq<Call>)
    requires !env.sharing
    ensures HarmlessRun(env, cfg, s, calls)
    decreases |calls|
  {
    if calls != [] {
      CopiesAreHarmless(env, cfg, Step(env, cfg, s, calls[0].op, calls[0].at).0, calls[1..]);
    }
  }

  /** A refused update stays in the shared record with another password hash. */
  predicate LosesPassword(env: Env, s: State, op: Op) {
    && env.sharing && op.UpdateUser? && op.id in s.rows.users
    && var (changed, error) := ApplyFields(env, s.rows.users[op.id], op.userFields);
       error.Some? && changed.passwordHash != s.rows.users[op.id].passwordHash
  }

  ghost predicate KeepsPasswords(env: Env, cfg: Config, s: State, calls: seq<Call>)
    decreases |calls|
  {
    calls != [] ==>
      !LosesPassword(env, s, calls[0].op) && KeepsPasswords(env, cfg, Step(env, cfg, s, calls[0].op, calls[0].at).0, calls[1..])
  }

  ghost predicate AllAccepted(env: Env, s: State) {
    forall h | h in s.credCache :: Accepts(env, s.credCache[h].user, h)
  }

  lemma UserOpsAccepted(env: Env, cfg: Config, s: State, op: Op, now: int)
    requires CredentialsNamed(s, now) && AllAccepted(env, s) && !LosesPassword(env, s, op) && RowsOk(s.rows)
    requires op.CreateUser? || op.UpdateUser? || op.DeleteUser? || op.ChangePassword?
    ensures AllAccepted(env, Step(env, cfg, s, op, now).0)
  {
  }

  lemma CheckAccepted(env: Env, cfg: Config, s: State, username: string, password: string, now: int)
    requires RowsOk(s.rows) && AllAccepted(env, s)
    ensures AllAccepted(env, AfterValidateCredentials(env, cfg, s, username, password, now).0)
  {
    var answer := CheckCredentials(env, s.rows, username, password);
    if answer.UserOk? {
      NamesOwn(answer.user, password);
    }
  }

  lemma KeyOpsAccepted(env: Env, cfg: Config, s: State, op: Op, now: int)
    requires !(op.CreateUser? || op.UpdateUser? || op.DeleteUser? || op.ChangePassword? || op.ValidateCredentials?)
    ensures Step(env, cfg, s, op, now).0.credCache == s.credCache
  {
  }

  lemma StepAccepted(env: Env, cfg: Config, s: State, op: Op, now: int)
    requires RowsOk(s.rows) && CredentialsNamed(s, now) && AllAccepted(env, s) && !LosesPassword(env, s, op)
    ensures AllAccepted(env, Step(env, cfg, s, op, now).0) && !Harmful(env, cfg, s, op, now)
  {
    match op
    case ValidateCredentials(username, password) => CheckAccepted(env, cfg, s, username, password, now);
    case CreateUser(_, _, _, _, _) => UserOpsAccepted(env, cfg, s, op, now);
    case UpdateUser(_, _) => UserOpsAccepted(env, cfg, s, op, now);
    case DeleteUser(_) => UserOpsAccepted(env, cfg, s, op, now);
    case ChangePassword(_, _, _) => UserOpsAccepted(env, cfg, s, op, now);
    case _ => KeyOpsAccepted(env, cfg, s, op, now);
  }

  /** In particular, no update is harmful if no refused one has changed a password. */
  lemma {:induction false} KeptPasswordsAreHarmless(env: Env, cfg: Config, s: State, calls: seq<Call>, from: int)
    requires Coherent(env, cfg, s, from) && AllAccepted(env, s) && KeepsPasswords(env, cfg, s, calls)
    requires Timed(calls, from) && forall c | c in calls :: ColonFree(c.op)
    ensures HarmlessRun(env, cfg, s, calls)
    decreases |calls|
  {
    if calls != [] {
      assert calls[0] in calls;
      TimedRest(calls, from);
      StepAccepted(env, cfg, s, calls[0].op, calls[0].at);
      StepCoherent(env, cfg, s, calls[0].op, from, calls[0].at);
      KeptPasswordsAreHarmless(env, cfg, Step(env, cfg, s, calls[0].op, calls[0].at).0, calls[1..], calls[0].at);
    }
  }

  /** Check a credential, have an update refused that names a password and an invalid role, check the credential again. */
  function RefusedChange(user: User, password: string, fields: seq<UserField>, now: int): seq<Call> {
    [Call(ValidateCredentials(user.username, password), now), Call(UpdateUser(user.id, fields), now),
     Call(ValidateCredentials(user.username, password), now)]
  }

  lemma AnswersOfThree(env: Env, cfg: Config, s: State, x: Call, y: Call, z: Call)
    ensures var s1 := Step(env, cfg, s, x.op, x.at).0;
            var s2 := Step(env, cfg, s1, y.op, y.at).0;
            Answers(env, cfg, s, [x, y, z]) ==
            [Step(env, cfg, s, x.op, x.at).1, Step(env, cfg, s1, y.op, y.at).1, Step(env, cfg, s2, z.op, z.at).1]
  {
    assert [x, y, z][1..] == [y, z];
    AnswersOfTwo(env, cfg, Step(env, cfg, s, x.op, x.at).0, y, z);
  }

  lemma Refused(env: Env, user: User, newHash: string, role: string)
    requires !env.validRole(role)
    ensures ApplyFields(env, user, [Password(Some(newHash)), UserRole(role)]) == (user.(passwordHash := newHash), Some(InvalidRole))
    ensures ApplyFields(env, user, [UserRole(role), Password(Some(newHash))]) == (user, Some(InvalidRole))
  {
    var p, r := Password(Some(newHash)), UserRole(role);
    assert [p, r][..1] == [p] && [p][..0] == [] && [r, p][..1] == [r] && [r][..0] == [];
    assert ApplyFields(env, user, []) == (user, None);
    assert ApplyFields(env, user, [p]) == (user.(passwordHash := newHash), None);
    assert ApplyFields(env, user, [r]) == (user, Some(InvalidRole));
  }

  /** The third answer: by the cache if credentials are cached at all, by the changed row otherwise. */
  lemma ThirdAnswer(env: Env, cfg: Config, s: State, user: User, password: string, newHash: string, role: string, now: int)
    requires RowsOk(s.rows) && s.credCache == map[] && env.sharing && user.id in s.rows.users && s.rows.users[user.id] == user
    requires user.enabled && env.matches(user.passwordHash, password) && !env.matches(newHash, password) && !env.validRole(role)
    ensures var changed := user.(passwordHash := newHash);
            var answers := Answers(env, cfg, s, RefusedChange(user, password, [Password(Some(newHash)), UserRole(role)], now));
            |answers| == 3 && answers[2] == if cfg.userTTL > 0 then UserOk(changed) else Failed(UserNotFound)
  {
    var changed, h := user.(passwordHash := newHash), CredKey(user.username, password);
    var calls := RefusedChange(user, password, [Password(Some(newHash)), UserRole(role)], now);
    AnswersOfThree(env, cfg, s, calls[0], calls[1], calls[2]);
    Refused(env, user, newHash, role);
    var s1 := Step(env, cfg, s, calls[0].op, now).0;
    assert s1 == s.(credCache := map[h := Entry(user, now)]);
    var s2 := Step(env, cfg, s1, calls[1].op, now).0;
    assert s2 == PublishUser(s1, changed) && s2.credCache == map[h := Entry(changed, now)];
    assert UserByName(s2.rows, user.username) == Some(changed);
  }

  /**
    * Why the premise is needed: an update that names a new password and then an invalid role is refused, but over shared
    * records the new password stays. With the cache the old password still goes through, without it no longer does.
    */
  lemma RefusedPasswordStays(env: Env, cfg: Config, rows: Rows, user: User, password: string, newHash: string, role: string, now: int)
    requires RowsOk(rows) && env.sharing && cfg.userTTL > 0 && user.id in rows.users && rows.users[user.id] == user
    requires user.enabled && env.matches(user.passwordHash, password) && !env.matches(newHash, password) && !env.validRole(role)
    ensures var calls := RefusedChange(user, password, [Password(Some(newHash)), UserRole(role)], now);
            var cached, direct := Answers(env, cfg, Started(cfg, rows), calls), Answers(env, UNCACHED, Started(UNCACHED, rows), calls);
            |cached| == |direct| == 3 && cached[2] == UserOk(user.(passwordHash := newHash)) && direct[2] == Failed(UserNotFound)
  {
    ThirdAnswer(env, cfg, Started(cfg, rows), user, password, newHash, role, now);
    ThirdAnswer(env, UNCACHED, Started(UNCACHED, rows), user, password, newHash, role, now);
  }

  /** A revoked key is refused by the very next check, whatever was cached. */
  lemma RevokedAtOnce(env: Env, cfg: Config, s: State, raw: string, id: int, now: int, later: int)
    requires Coherent(env, cfg, s, now) && now <= later && id in s.rows.keys && s.rows.keys[id].hash == Hash(raw)
    ensures AfterValidateAPIKey(cfg, AfterRevokeAPIKey(s, id).0, raw, later).1 == Failed(KeyDisabled)
  {
    RevokeCoherent(env, cfg, s, id, now);
    KeyFollowsRows(env, cfg, AfterRevokeAPIKey(s, id).0, raw, later);
  }

  /** After a password change a name and password are accepted exactly when the new hash accepts the password. */
  lemma PasswordChangedAtOnce(env: Env, cfg: Config, s: State, id: int, oldPassword: string, newHash: string,
                              password: string, now: int, later: int)
    requires Coherent(env, cfg, s, now) && now <= later && id in s.rows.users && ':' !in s.rows.users[id].username
    requires AfterChangePassword(env, s, id, oldPassword, Some(newHash)).1 == Done
    ensures var s2 := AfterChangePassword(env, s, id, oldPassword, Some(newHash)).0;
            AfterValidateCredentials(env, cfg, s2, s.rows.users[id].username, password, later).1.UserOk? <==>
            s.rows.users[id].enabled && env.matches(newHash, password)
  {
    ChangePasswordCoherent(env, cfg, s, id, oldPassword, Some(newHash), now);
    var s2 := AfterChangePassword(env, s, id, oldPassword, Some(newHash)).0;
    CredentialsFollowRows(env, cfg, s2, s.rows.users[id].username, password, later);
  }

  /** Exactly the names with a colon share a digest with another name. */
  lemma ColonNamesCollide(u: string, p: string)
    ensures ':' in u <==> exists v, q :: v != u && ':' !in v && CredKey(v, q) == CredKey(u, p)
  {
    if ':' in u {
      var i := FirstColon(u);
      var v, q := u[..i], u[i + 1..] + ":" + p;
      SplitCollides(u, p, v, q);
    } else {
      forall v, q | ':' !in v && CredKey(v, q) == CredKey(u, p)
        ensures v == u
      {
        CredKeyInjective(v, q, u, p);
      }
    }
  }

  /**
    * So the premise on names is needed: once a name with a colon has been accepted, the part before its colon, with
    * the rest moved into the password, is answered from the cache as that user, which the rows never do.
    */
  lemma ColonNamesConfuse(env: Env, cfg: Config, s: State, u: string, p: string, now: int)
    requires RowsOk(s.rows) && cfg.userTTL > 0 && ':' in u
    requires CheckCredentials(env, s.rows, u, p).UserOk? && CredKey(u, p) !in s.credCache
    ensures var v, q := u[..FirstColon(u)], u[FirstColon(u) + 1..] + ":" + p;
            var next := AfterValidateCredentials(env, cfg, s, u, p, now).0;
            AfterValidateCredentials(env, cfg, next, v, q, now).1 == CheckCredentials(env, s.rows, u, p)
            != CheckCredentials(env, s.rows, v, q)
  {
    var v, q := u[..FirstColon(u)], u[FirstColon(u) + 1..] + ":" + p;
    SplitCollides(u, p, v, q);
    assert UserByName(s.rows, u).value.username == u;
    assert UserByName(s.rows, v).Some? ==> UserByName(s.rows, v).value.username == v;
  }

  lemma SplitCollides(u: string, p: string, v: string, q: string)
    requires ':' in u && v == u[..FirstColon(u)] && q == u[FirstColon(u) + 1..] + ":" + p
    ensures v != u && CredKey(v, q) == CredKey(u, p)
  {
    var i := FirstColon(u);
    assert u == u[..i] + [u[i]] + u[i + 1..];
    assert v + ":" + q == u + ":" + p;
  }
}
