/** Two-phase confirmation: single-use tokens bound to a tool and its arguments, with a garbage collector. */
module Confirmations {
  import opened Options

  /** An argument value, as its JSON text. */
  type Args = map<string, string>

  /** A SHA-256 digest, told apart from every other by what was hashed. */
  datatype Hash = Hash(preimage: string)

  /** Time to live; canonical JSON of an argument map, `None` when marshalling fails; which calls need confirming. */
  datatype Env = Env(ttl: int, marshal: Args -> Option<string>, confirmable: (string, Args) -> bool)

  function Cleaned(args: Args): Args {
    map k | k in args && k != "dry_run" && k != "confirm_token" :: args[k]
  }

  function ArgsHash(env: Env, tool: string, args: Args): Hash {
    var data := env.marshal(Cleaned(args));
    Hash(tool + ":" + if data.Some? then data.value else "{}")
  }

  method ComputeArgsHash(env: Env, tool: string, args: Args) returns (hash: Hash)
    ensures hash == ArgsHash(env, tool, args)
  {
    var cleaned: Args := map[];
    var rest := args.Keys;
    while rest != {}
      invariant rest <= args.Keys
      invariant forall k | k in cleaned :: k in Cleaned(args) && k !in rest && cleaned[k] == args[k]
      invariant forall k | k in Cleaned(args) :: k in rest || k in cleaned
    {
      var k :| k in rest;
      rest := rest - {k};
      if k == "dry_run" || k == "confirm_token" {
        continue;
      }
      cleaned := cleaned[k := args[k]];
    }
    assert cleaned == Cleaned(args);
    var data := env.marshal(cleaned);
    if data.None? {
      data := Some("{}");
    }
    return Hash(tool + ":" + data.value);
  }

  predicate SameArgs(a: Args, b: Args) {
    forall k | k in a.Keys + b.Keys && k != "dry_run" && k != "confirm_token" :: k in a && k in b && a[k] == b[k]
  }

  lemma CleanedSame(a: Args, b: Args)
    ensures Cleaned(a) == Cleaned(b) <==> SameArgs(a, b)
  {
    if Cleaned(a) == Cleaned(b) {
      forall k | k in a.Keys + b.Keys && k != "dry_run" && k != "confirm_token"
        ensures k in a && k in b && a[k] == b[k]
      {
        assert k in Cleaned(a) <==> k in a;
        assert k in Cleaned(b) <==> k in b;
        assert Cleaned(a)[k] == Cleaned(b)[k];
      }
    }
  }

  /** With marshalling injective, one tool's hashes agree exactly when the arguments agree outside the two control fields. */
  lemma HashSeparatesArgs(env: Env, tool: string, a: Args, b: Args)
    requires forall x, y :: env.marshal(x) == env.marshal(y) ==> x == y
    requires env.marshal(Cleaned(a)).Some? && env.marshal(Cleaned(b)).Some?
    ensures ArgsHash(env, tool, a) == ArgsHash(env, tool, b) <==> SameArgs(a, b)
  {
    var x, y := env.marshal(Cleaned(a)).value, env.marshal(Cleaned(b)).value;
    assert (tool + ":" + x)[|tool| + 1..] == x && (tool + ":" + y)[|tool| + 1..] == y;
    CleanedSame(a, b);
  }

  // ----- the store

  datatype Entry = Entry(tool: string, hash: Hash, expiresAt: int, used: bool)

  type Tokens = map<string, Entry>

  datatype Refusal = NotFound | Expired | AlreadyUsed | OtherTool | OtherArgs

  datatype Verdict = Accepted | Refused(why: Refusal)

  function Generated(env: Env, tokens: Tokens, token: string, tool: string, args: Args, now: int): Tokens {
    tokens[token := Entry(tool, ArgsHash(env, tool, args), now + env.ttl, false)]
  }

  function Judge(env: Env, tokens: Tokens, token: string, tool: string, args: Args, now: int): Verdict {
    if token !in tokens then Refused(NotFound)
    else if now > tokens[token].expiresAt then Refused(Expired)
    else if tokens[token].used then Refused(AlreadyUsed)
    else if tokens[token].tool != tool then Refused(OtherTool)
    else if tokens[token].hash != ArgsHash(env, tool, args) then Refused(OtherArgs)
    else Accepted
  }

  function Validated(env: Env, tokens: Tokens, token: string, tool: string, args: Args, now: int): Tokens {
    var verdict := Judge(env, tokens, token, tool, args, now);
    if verdict == Refused(Expired) then tokens - {token}
    else if verdict == Accepted then tokens[token := tokens[token].(used := true)]
    else tokens
  }

  function Collected(tokens: Tokens, now: int): Tokens {
    map t | t in tokens && !(now > tokens[t].expiresAt || tokens[t].used) :: tokens[t]
  }

  /** What is wrong with a token, looked at in this order: unknown, expired, used, for another tool, for other arguments. */
  lemma VerdictExactly(env: Env, tokens: Tokens, token: string, tool: string, args: Args, now: int)
    ensures var verdict := Judge(env, tokens, token, tool, args, now);
            && (verdict == Refused(NotFound) <==> token !in tokens)
            && (token in tokens ==>
                  var e := tokens[token];
                  && (verdict == Refused(Expired) <==> e.expiresAt < now)
                  && (verdict == Refused(AlreadyUsed) <==> now <= e.expiresAt && e.used)
                  && (verdict == Refused(OtherTool) <==> now <= e.expiresAt && !e.used && e.tool != tool)
                  && (verdict == Refused(OtherArgs) <==>
                        now <= e.expiresAt && !e.used && e.tool == tool && e.hash != ArgsHash(env, tool, args))
                  && (verdict == Accepted <==>
                        now <= e.expiresAt && !e.used && e.tool == tool && e.hash == ArgsHash(env, tool, args)))
  {
  }

  /** An accepted token is marked used, an expired one is forgotten, and every other token stays as it is. */
  lemma ValidationEffect(env: Env, tokens: Tokens, token: string, tool: string, args: Args, now: int, t: string)
    ensures var after := Validated(env, tokens, token, tool, args, now);
            var verdict := Judge(env, tokens, token, tool, args, now);
            && (t in after <==> t in tokens && !(t == token && tokens[t].expiresAt < now))
            && (t in after && (t != token || verdict != Accepted) ==> after[t] == tokens[t])
            && (t in after && t == token && verdict == Accepted ==>
                  after[t] == Entry(tokens[t].tool, tokens[t].hash, tokens[t].expiresAt, true))
  {
  }

  /** The collector keeps exactly the tokens that are neither used nor expired. */
  lemma CollectorKeeps(tokens: Tokens, now: int, t: string)
    ensures t in Collected(tokens, now) <==> t in tokens && !tokens[t].used && now <= tokens[t].expiresAt
    ensures t in Collected(tokens, now) ==> Collected(tokens, now)[t] == tokens[t]
  {
  }

  class ConfirmationStore {
    const env: Env
    var tokens: Tokens

    constructor (env: Env)
      ensures this.env == env && tokens == map[]
    {
      this.env, tokens := env, map[];
    }

    /** The token is a freshly drawn UUID. */
    method Generate(token: string, tool: string, args: Args, now: int)
      modifies this
      ensures tokens == Generated(env, old(tokens), token, tool, args, now)
    {
      var hash := ComputeArgsHash(env, tool, args);
      tokens := tokens[token := Entry(tool, hash, now + env.ttl, false)];
    }

    method Validate(token: string, tool: string, args: Args, now: int) returns (verdict: Verdict)
      modifies this
      ensures verdict == Judge(env, old(tokens), token, tool, args, now)
      ensures tokens == Validated(env, old(tokens), token, tool, args, now)
    {
      if token !in tokens {
        return Refused(NotFound);
      }
      var entry := tokens[token];
      if now > entry.expiresAt {
        tokens := tokens - {token};
        return Refused(Expired);
      }
      if entry.used {
        return Refused(AlreadyUsed);
      }
      if entry.tool != tool {
        return Refused(OtherTool);
      }
      var hash := ComputeArgsHash(env, tool, args);
      if entry.hash != hash {
        return Refused(OtherArgs);
      }
      tokens := tokens[token := entry.(used := true)];
      return Accepted;
    }

    method GC(now: int)
      modifies this
      ensures tokens == Collected(old(tokens), now)
    {
      var rest := tokens.Keys;
      while rest != {}
        invariant rest <= tokens.Keys <= old(tokens).Keys
        invariant forall t | t in tokens :: tokens[t] == old(tokens)[t]
        invariant forall t | t in old(tokens) :: t in tokens || t !in Collected(old(tokens), now)
        invariant forall t | t in tokens :: t in rest || t in Collected(old(tokens), now)
        decreases |rest|
      {
        var id :| id in rest;
        if now > tokens[id].expiresAt || tokens[id].used {
          tokens := tokens - {id};
        }
        rest := rest - {id};
      }
      assert tokens == Collected(old(tokens), now);
    }

    /** The gate in front of a destructive tool: `Proceed` lets the call through. */
    method ConfirmationCheck(tool: string, dryRun: bool, confirmToken: string, args: Args, drawn: string, now: int)
      returns (gate: Gate)
      modifies this
      ensures !env.confirmable(tool, args) ==> gate == Proceed && tokens == old(tokens)
      ensures env.confirmable(tool, args) && dryRun ==>
                gate == Preview(drawn) && tokens == Generated(env, old(tokens), drawn, tool, args, now)
      ensures env.confirmable(tool, args) && !dryRun && confirmToken == "" ==> gate == Demanded && tokens == old(tokens)
      ensures env.confirmable(tool, args) && !dryRun && confirmToken != "" ==>
                && (gate == Proceed <==> Judge(env, old(tokens), confirmToken, tool, args, now) == Accepted)
                && (gate == Proceed || gate == Failed(Judge(env, old(tokens), confirmToken, tool, args, now)))
                && tokens == Validated(env, old(tokens), confirmToken, tool, args, now)
    {
      if !env.confirmable(tool, args) {
        return Proceed;
      }
      if dryRun {
        Generate(drawn, tool, args, now);
        return Preview(drawn);
      }
      if confirmToken != "" {
        var verdict := Validate(confirmToken, tool, args, now);
        if verdict != Accepted {
          return Failed(verdict);
        }
        return Proceed;
      }
      return Demanded;
    }
  }

  datatype Gate = Proceed | Preview(token: string) | Failed(verdict: Verdict) | Demanded

  // ----- runs

  datatype Call =
    | Generate(at: int, token: string, tool: string, args: Args)
    | Validate(at: int, token: string, tool: string, args: Args)
    | GC(at: int)

  function Step(env: Env, tokens: Tokens, c: Call): Tokens {
    match c
    case Generate(at, token, tool, args) => Generated(env, tokens, token, tool, args, at)
    case Validate(at, token, tool, args) => Validated(env, tokens, token, tool, args, at)
    case GC(at) => Collected(tokens, at)
  }

  /** The tokens after all calls of a run that started with none. */
  function After(env: Env, calls: seq<Call>): Tokens {
    if calls == [] then map[] else Step(env, After(env, calls[..|calls| - 1]), calls[|calls| - 1])
  }

  /** The call is a validation that succeeds on these tokens. */
  predicate Succeeds(env: Env, tokens: Tokens, c: Call) {
    c.Validate? && Judge(env, tokens, c.token, c.tool, c.args, c.at) == Accepted
  }

  predicate SucceedsAt(env: Env, calls: seq<Call>, i: nat)
    requires i < |calls|
  {
    Succeeds(env, After(env, calls[..i]), calls[i])
  }

  /** A monotone clock. */
  ghost predicate Timed(calls: seq<Call>) {
    forall i, j | 0 <= i < j < |calls| :: calls[i].at <= calls[j].at
  }

  /** No token is drawn twice. */
  ghost predicate FreshTokens(calls: seq<Call>) {
    forall i, j | 0 <= i < j < |calls| && calls[i].Generate? && calls[j].Generate? :: calls[i].token != calls[j].token
  }

  ghost predicate IsRun(calls: seq<Call>) {
    Timed(calls) && FreshTokens(calls)
  }

  /** Call `j` of the run issued this entry, unused. */
  predicate IssuedAt(env: Env, calls: seq<Call>, j: nat, token: string, entry: Entry)
    requires j < |calls|
  {
    && calls[j].Generate? && calls[j].token == token && calls[j].tool == entry.tool
    && ArgsHash(env, calls[j].tool, calls[j].args) == entry.hash && calls[j].at + env.ttl == entry.expiresAt
  }

  ghost predicate Spent(env: Env, calls: seq<Call>, token: string) {
    exists k | 0 <= k < |calls| :: calls[k].Validate? && calls[k].token == token && SucceedsAt(env, calls, k)
  }

  predicate WasIssued(calls: seq<Call>, token: string) {
    exists j | 0 <= j < |calls| :: calls[j].Generate? && calls[j].token == token
  }

  lemma AfterLast(env: Env, calls: seq<Call>, c: Call)
    ensures After(env, calls + [c]) == Step(env, After(env, calls), c)
    ensures forall k | 0 <= k < |calls| :: SucceedsAt(env, calls + [c], k) == SucceedsAt(env, calls, k)
    ensures SucceedsAt(env, calls + [c], |calls|) == Succeeds(env, After(env, calls), c)
  {
    assert (calls + [c])[..|calls|] == calls;
    assert forall k | 0 <= k < |calls| :: (calls + [c])[..k] == calls[..k];
  }

  lemma SpentLast(env: Env, calls: seq<Call>, c: Call, token: string)
    ensures Spent(env, calls + [c], token) <==>
            Spent(env, calls, token) || (Succeeds(env, After(env, calls), c) && c.token == token)
  {
    var all := calls + [c];
    var now := Succeeds(env, After(env, calls), c) && c.token == token;
    AfterLast(env, calls, c);
    if Spent(env, calls, token) {
      var k :| 0 <= k < |calls| && calls[k].Validate? && calls[k].token == token && SucceedsAt(env, calls, k);
      assert all[k] == calls[k] && SucceedsAt(env, all, k);
    }
    if now {
      assert all[|calls|] == c && SucceedsAt(env, all, |calls|);
    }
    if Spent(env, all, token) && !now {
      var k :| 0 <= k < |all| && all[k].Validate? && all[k].token == token && SucceedsAt(env, all, k);
      assert k < |calls| && calls[k] == all[k] && SucceedsAt(env, calls, k);
    }
  }

  /** Some call of the run issued this entry, used or not. */
  predicate HasOrigin(env: Env, calls: seq<Call>, token: string, entry: Entry) {
    exists j | 0 <= j < |calls| :: IssuedAt(env, calls, j, token, entry)
  }

  lemma OriginLast(env: Env, calls: seq<Call>, c: Call, token: string, entry: Entry)
    requires HasOrigin(env, calls, token, entry)
    ensures HasOrigin(env, calls + [c], token, entry) && WasIssued(calls, token)
  {
    var j :| 0 <= j < |calls| && IssuedAt(env, calls, j, token, entry);
    assert (calls + [c])[j] == calls[j] && IssuedAt(env, calls + [c], j, token, entry);
  }

  /** Every stored token was issued as recorded and is marked used exactly if it has succeeded; only issued tokens have. */
  ghost predicate StoredWereIssued(env: Env, calls: seq<Call>) {
    && (forall t | t in After(env, calls) ::
          HasOrigin(env, calls, t, After(env, calls)[t]) && (After(env, calls)[t].used <==> Spent(env, calls, t)))
    && (forall t | Spent(env, calls, t) :: WasIssued(calls, t))
  }

  lemma SubRun(calls: seq<Call>, c: Call)
    requires IsRun(calls + [c])
    ensures IsRun(calls) && forall i | 0 <= i < |calls| :: calls[i].at <= c.at
    ensures c.Generate? ==> !WasIssued(calls, c.token)
  {
    var all := calls + [c];
    assert forall i | 0 <= i < |calls| :: all[i] == calls[i];
    assert all[|calls|] == c;
  }

  lemma StoredStep(env: Env, calls: seq<Call>, c: Call)
    requires IsRun(calls + [c]) && StoredWereIssued(env, calls)
    ensures StoredWereIssued(env, calls + [c])
  {
    var all := calls + [c];
    var before := After(env, calls);
    SubRun(calls, c);
    AfterLast(env, calls, c);
    forall t | t in After(env, all)
      ensures HasOrigin(env, all, t, After(env, all)[t]) && (After(env, all)[t].used <==> Spent(env, all, t))
    {
      SpentLast(env, calls, c, t);
      if c.Generate? && t == c.token {
        assert all[|calls|] == c && IssuedAt(env, all, |calls|, t, After(env, all)[t]);
      } else {
        OriginLast(env, calls, c, t, before[t]);
        assert HasOrigin(env, all, t, before[t].(used := true)) by {
          var j :| 0 <= j < |all| && IssuedAt(env, all, j, t, before[t]);
          assert IssuedAt(env, all, j, t, before[t].(used := true));
        }
      }
    }
    forall t | Spent(env, all, t)
      ensures WasIssued(all, t)
    {
      SpentLast(env, calls, c, t);
      if !Spent(env, calls, t) {
        OriginLast(env, calls, c, t, before[t]);
      }
      var j :| 0 <= j < |calls| && calls[j].Generate? && calls[j].token == t;
      assert all[j] == calls[j];
    }
  }

  lemma {:induction false} Stored(env: Env, calls: seq<Call>)
    requires IsRun(calls)
    ensures StoredWereIssued(env, calls)
  {
    if calls != [] {
      var init, c := calls[..|calls| - 1], calls[|calls| - 1];
      assert calls == init + [c];
      SubRun(init, c);
      Stored(env, init);
      StoredStep(env, init, c);
    }
  }

  /** A stored entry carries the expiry given when its token was issued. */
  lemma StoredExpiry(env: Env, calls: seq<Call>, j: nat)
    requires IsRun(calls) && StoredWereIssued(env, calls) && j < |calls| && calls[j].Generate?
    requires calls[j].token in After(env, calls)
    ensures IssuedAt(env, calls, j, calls[j].token, After(env, calls)[calls[j].token])
  {
    var t := calls[j].token;
    var k :| 0 <= k < |calls| && IssuedAt(env, calls, k, t, After(env, calls)[t]);
    assert k == j;
  }

  lemma LiveTokenStays(env: Env, tokens: Tokens, c: Call, token: string)
    requires token in tokens && !tokens[token].used && c.at <= tokens[token].expiresAt
    ensures token in Step(env, tokens, c)
  {
  }

  /** An issued token that has neither expired nor succeeded is still stored. */
  lemma {:induction false} IssuedIsStored(env: Env, calls: seq<Call>, j: nat, now: int)
    requires IsRun(calls) && j < |calls| && calls[j].Generate? && now <= calls[j].at + env.ttl
    requires forall i | 0 <= i < |calls| :: calls[i].at <= now
    requires !Spent(env, calls, calls[j].token)
    ensures calls[j].token in After(env, calls)
  {
    var init, c := calls[..|calls| - 1], calls[|calls| - 1];
    var t := calls[j].token;
    assert calls == init + [c];
    AfterLast(env, init, c);
    if j < |init| {
      assert init[j] == calls[j];
      SubRun(init, c);
      SpentLast(env, init, c, t);
      IssuedIsStored(env, init, j, now);
      LiveInside(env, init, j);
      assert c.at <= now;
      LiveTokenStays(env, After(env, init), c, t);
    }
  }

  lemma LiveInside(env: Env, calls: seq<Call>, j: nat)
    requires IsRun(calls) && j < |calls| && calls[j].Generate? && calls[j].token in After(env, calls)
    ensures var entry := After(env, calls)[calls[j].token];
            entry.expiresAt == calls[j].at + env.ttl && (entry.used <==> Spent(env, calls, calls[j].token))
  {
    Stored(env, calls);
    StoredExpiry(env, calls, j);
  }

  /** Call `j` issued the token that call `i` presents, for the same tool and arguments, and not too long before. */
  predicate Authorises(env: Env, calls: seq<Call>, j: nat, i: nat)
    requires j < |calls| && i < |calls|
  {
    && calls[j].Generate? && calls[i].Validate? && calls[j].token == calls[i].token && calls[j].tool == calls[i].tool
    && ArgsHash(env, calls[j].tool, calls[j].args) == ArgsHash(env, calls[i].tool, calls[i].args)
    && calls[i].at <= calls[j].at + env.ttl
  }

  lemma SubRunTo(calls: seq<Call>, i: nat)
    requires IsRun(calls) && i < |calls|
    ensures IsRun(calls[..i]) && forall k | 0 <= k < i :: calls[..i][k] == calls[k] && calls[k].at <= calls[i].at
  {
  }

  /**
    * Whatever the collector does, a validation succeeds exactly if an earlier call issued its token for the same tool
    * and arguments, it comes no later than the expiry, and the token has not succeeded before.
    */
  lemma SucceedsExactly(env: Env, calls: seq<Call>, i: nat)
    requires IsRun(calls) && i < |calls| && calls[i].Validate?
    ensures SucceedsAt(env, calls, i) <==>
            (exists j | 0 <= j < i :: Authorises(env, calls, j, i)) && !Spent(env, calls[..i], calls[i].token)
  {
    var c, before := calls[i], calls[..i];
    SubRunTo(calls, i);
    Stored(env, before);
    if SucceedsAt(env, calls, i) {
      var j :| 0 <= j < i && IssuedAt(env, before, j, c.token, After(env, before)[c.token]);
      assert Authorises(env, calls, j, i);
    }
    if exists j | 0 <= j < i :: Authorises(env, calls, j, i) {
      var j :| 0 <= j < i && Authorises(env, calls, j, i);
      if !Spent(env, before, c.token) {
        assert before[j] == calls[j];
        IssuedIsStored(env, before, j, c.at);
        StoredExpiry(env, before, j);
      }
    }
  }

  /** A token succeeds at most once. */
  lemma SucceedsOnce(env: Env, calls: seq<Call>, i: nat, k: nat)
    requires IsRun(calls) && i < k < |calls| && calls[i].Validate? && calls[k].Validate?
    requires SucceedsAt(env, calls, i) && SucceedsAt(env, calls, k)
    ensures calls[i].token != calls[k].token
  {
    SucceedsExactly(env, calls, k);
    assert calls[..k][i] == calls[i] && calls[..k][..i] == calls[..i];
    assert SucceedsAt(env, calls[..k], i);
  }

  // ----- no more confirmations than tokens

  function Issued(env: Env, calls: seq<Call>, tool: string, hash: Hash): nat {
    if calls == [] then 0
    else
      var c := calls[|calls| - 1];
      Issued(env, calls[..|calls| - 1], tool, hash)
      + if c.Generate? && c.tool == tool && ArgsHash(env, tool, c.args) == hash then 1 else 0
  }

  function Confirmed(env: Env, calls: seq<Call>, tool: string, hash: Hash): nat {
    if calls == [] then 0
    else
      var init, c := calls[..|calls| - 1], calls[|calls| - 1];
      Confirmed(env, init, tool, hash)
      + if Succeeds(env, After(env, init), c) && c.tool == tool && ArgsHash(env, tool, c.args) == hash then 1 else 0
  }

  function Unused(tokens: Tokens, tool: string, hash: Hash): set<string> {
    set t | t in tokens && tokens[t].tool == tool && tokens[t].hash == hash && !tokens[t].used
  }

  lemma Smaller<T>(a: set<T>, b: set<T>)
    requires a <= b
    ensures |a| <= |b|
  {
    assert b == a + (b - a);
  }

  /** A step adds at most one unused token for the pair, if it issues one, and a success takes one away. */
  lemma UnusedStep(env: Env, tokens: Tokens, c: Call, tool: string, hash: Hash)
    ensures c.Generate? ==> |Unused(Step(env, tokens, c), tool, hash)| <= |Unused(tokens, tool, hash)|
                            + if c.tool == tool && ArgsHash(env, tool, c.args) == hash then 1 else 0
    ensures !c.Generate? ==> |Unused(Step(env, tokens, c), tool, hash)|
                             + (if Succeeds(env, tokens, c) && c.tool == tool && ArgsHash(env, tool, c.args) == hash then 1 else 0)
                             <= |Unused(tokens, tool, hash)|
  {
    var before, after := Unused(tokens, tool, hash), Unused(Step(env, tokens, c), tool, hash);
    match c
    case Generate(at, token, t, args) =>
      if t == tool && ArgsHash(env, tool, args) == hash {
        assert after <= before + {token};
        Smaller(after, before + {token});
      } else {
        assert after <= before;
        Smaller(after, before);
      }
    case Validate(at, token, t, args) =>
      if Succeeds(env, tokens, c) && t == tool && ArgsHash(env, tool, args) == hash {
        assert token in before && after <= before - {token};
        Smaller(after, before - {token});
      } else {
        assert after <= before;
        Smaller(after, before);
      }
    case GC(at) =>
      assert after <= before;
      Smaller(after, before);
  }

  /** For every tool and argument hash, confirmations and tokens still usable never outnumber the tokens issued. */
  lemma {:induction false} ConfirmedWithinIssued(env: Env, calls: seq<Call>, tool: string, hash: Hash)
    ensures Confirmed(env, calls, tool, hash) + |Unused(After(env, calls), tool, hash)| <= Issued(env, calls, tool, hash)
  {
    if calls != [] {
      var init, c := calls[..|calls| - 1], calls[|calls| - 1];
      ConfirmedWithinIssued(env, init, tool, hash);
      UnusedStep(env, After(env, init), c, tool, hash);
    }
  }

  // ----- the collector is invisible

  function WithoutGC(calls: seq<Call>): seq<Call> {
    if calls == [] then []
    else
      var rest := WithoutGC(calls[..|calls| - 1]);
      if calls[|calls| - 1].GC? then rest else rest + [calls[|calls| - 1]]
  }

  /** The second store holds the first, and otherwise only entries that can never succeed again. */
  ghost predicate OnlyDeadMissing(s: Tokens, t: Tokens, now: int) {
    && (forall id | id in s :: id in t && t[id] == s[id])
    && (forall id | id in t && id !in s :: t[id].used || now > t[id].expiresAt)
  }

  lemma DeadStayDead(env: Env, s: Tokens, t: Tokens, c: Call, now: int)
    requires OnlyDeadMissing(s, t, c.at) && c.at <= now
    ensures OnlyDeadMissing(Step(env, s, c), if c.GC? then t else Step(env, t, c), now)
  {
  }

  lemma {:induction false} CollectorDropsDead(env: Env, calls: seq<Call>, now: int)
    requires Timed(calls) && forall i | 0 <= i < |calls| :: calls[i].at <= now
    ensures OnlyDeadMissing(After(env, calls), After(env, WithoutGC(calls)), now)
  {
    if calls != [] {
      var init, c := calls[..|calls| - 1], calls[|calls| - 1];
      CollectorDropsDead(env, init, c.at);
      DeadStayDead(env, After(env, init), After(env, WithoutGC(init)), c, now);
      if !c.GC? {
        AfterLast(env, WithoutGC(init), c);
      }
    }
  }

  /** Over every timed run, leaving out all collections changes the outcome of no validation. */
  lemma CollectorIsInvisible(env: Env, calls: seq<Call>, c: Call)
    requires Timed(calls + [c]) && c.Validate?
    ensures Succeeds(env, After(env, calls), c) <==> Succeeds(env, After(env, WithoutGC(calls)), c)
  {
    var all := calls + [c];
    assert forall i | 0 <= i < |calls| :: all[i] == calls[i];
    assert all[|calls|] == c;
    CollectorDropsDead(env, calls, c.at);
  }
}
