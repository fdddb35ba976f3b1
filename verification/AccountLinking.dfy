/**
 Account linking: the login, link and rollback calls of the linking service, and standalone
 registration with its compensation, as sequences of repository calls.
 */
module AccountLinking {
  import opened Strings
  import opened IdentityStore

  /** `allowLink` maps a provider to the secondary providers its Principals may add. */
  datatype Policy = Policy(firstLogin: bool, authoritative: set<string>, allowLink: seq<(string, set<string>)>)

  datatype LinkError = InvalidIdentity | AuthoritativeLoginRequired | LinkNotAllowed | PrincipalDisabled | IdentityAlreadyBound | Repository

  datatype LinkResult = Linked(principal: Principal) | Failed(error: LinkError)

  function MapError(e: Error): LinkError
  {
    if e == AlreadyBound then IdentityAlreadyBound else Repository
  }

  /** A disabled Principal gets no authenticated context. */
  function Context(p: Principal): LinkResult
  {
    if p.status == Active then Linked(p) else Failed(PrincipalDisabled)
  }

  predicate MayCreate(policy: Policy, provider: string)
  {
    policy.firstLogin || provider in policy.authoritative
  }

  predicate LinkPermitted(policy: Policy, db: Db, pid: string, provider: string)
  {
    exists i :: 0 <= i < |policy.allowLink| && provider in policy.allowLink[i].1 && HasProvider(db, pid, policy.allowLink[i].0)
  }

  /** `identity` is the validated key, `None` when validation fails; `candidate` is the Principal a creation would use. */
  function LoginSpec(policy: Policy, db: Db, identity: Option<Key>, candidate: Principal): (Db, LinkResult)
  {
    match identity
    case None => (db, Failed(InvalidIdentity))
    case Some(k) =>
      var found := FindByIdentity(db, k);
      if found.Some? then (db, Context(found.value))
      else if MayCreate(policy, k.provider) then
        var tx := CreateAndBind(db, candidate, k);
        (After(db, tx), if tx.Committed? then Context(tx.value) else Failed(MapError(tx.error)))
      else (db, Failed(AuthoritativeLoginRequired))
  }

  function LinkSpec(policy: Policy, db: Db, pid: string, identity: Option<Key>): (Db, LinkResult)
  {
    match identity
    case None => (db, Failed(InvalidIdentity))
    case Some(k) =>
      if !LinkPermitted(policy, db, pid, k.provider) then (db, Failed(LinkNotAllowed))
      else
        var tx := Bind(db, pid, k);
        (After(db, tx), if tx.Committed? then Context(tx.value) else Failed(MapError(tx.error)))
  }

  method ResolveLogin(store: PrincipalStore, policy: Policy, identity: Option<Key>, candidate: Principal) returns (r: LinkResult)
    modifies store`principals, store`bindings
    ensures (store.Abs(), r) == LoginSpec(policy, old(store.Abs()), identity, candidate)
  {
    if identity.None? {
      return Failed(InvalidIdentity);
    }
    var key := identity.value;
    var found := store.FindPrincipalByIdentity(key);
    if found.Some? {
      return Context(found.value);
    }
    if policy.firstLogin || key.provider in policy.authoritative {
      var created := store.CreatePrincipalAndBind(candidate, key);
      if created.Aborted? {
        return Failed(MapError(created.error));
      }
      return Context(created.value);
    }
    return Failed(AuthoritativeLoginRequired);
  }

  method LinkIdentity(store: PrincipalStore, policy: Policy, pid: string, identity: Option<Key>) returns (r: LinkResult)
    modifies store`bindings
    ensures (store.Abs(), r) == LinkSpec(policy, old(store.Abs()), pid, identity)
  {
    if identity.None? {
      return Failed(InvalidIdentity);
    }
    var key := identity.value;
    var permitted := false;
    var i := 0;
    while i < |policy.allowLink| && !permitted
      invariant 0 <= i <= |policy.allowLink|
      invariant store.Abs() == old(store.Abs())
      invariant permitted <==>
        exists j :: 0 <= j < i && key.provider in policy.allowLink[j].1 && HasProvider(store.Abs(), pid, policy.allowLink[j].0)
    {
      if key.provider in policy.allowLink[i].1 {
        permitted := store.PrincipalHasProvider(pid, policy.allowLink[i].0);
      }
      i := i + 1;
    }
    assert permitted <==> LinkPermitted(policy, store.Abs(), pid, key.provider);
    if !permitted {
      return Failed(LinkNotAllowed);
    }
    var bound := store.BindIdentity(pid, key);
    if bound.Aborted? {
      return Failed(MapError(bound.error));
    }
    return Context(bound.value);
  }

  /** A failed link leaves the tables as they were, except when it bound the identity and then found the Principal disabled. */
  lemma FailedLinkEffect(policy: Policy, db: Db, pid: string, identity: Option<Key>)
    requires LinkSpec(policy, db, pid, identity).1.Failed?
    ensures LinkSpec(policy, db, pid, identity).0 == db <==>
      !(identity.Some? && LinkPermitted(policy, db, pid, identity.value.provider)
        && pid in db.principals && identity.value !in db.bindings && db.principals[pid].status == Disabled)
  {
    if LinkSpec(policy, db, pid, identity).0 != db {
      assert identity.value in LinkSpec(policy, db, pid, identity).0.bindings;
    }
  }

  /** The failing input: a permitted link to a disabled Principal. */
  lemma FailedLinkLeavesBinding()
    ensures var policy := Policy(false, {"google"}, [("google", {"github"})]);
      var p, a, k := Principal("p", User, "P", Disabled), Key("google", "g", "1"), Key("github", "h", "2");
      var (after, result) := LinkSpec(policy, Db(map["p" := p], map[a := "p"], {}), "p", Some(k));
      result == Failed(PrincipalDisabled) && after.bindings == map[a := "p", k := "p"]
  {
    var policy := Policy(false, {"google"}, [("google", {"github"})]);
    var p, a, k := Principal("p", User, "P", Disabled), Key("google", "g", "1"), Key("github", "h", "2");
    var db := Db(map["p" := p], map[a := "p"], {});
    assert db.bindings[a] == "p" && a.provider == policy.allowLink[0].0;
    assert HasProvider(db, "p", policy.allowLink[0].0) && k.provider in policy.allowLink[0].1;
    assert LinkPermitted(policy, db, "p", k.provider);
    assert k != a;
  }

  // ----- Standalone registration -----

  /**
   What a registration request amounts to: the normalised login and the validated identity (`None`
   when refused), the outcomes of the password policy, display-name and hashing checks, and the
   Principal a bearer token names (`Some(None)`: a token that does not verify).
   */
  datatype Request = Request(login: Option<string>, passwordOk: bool, nameOk: bool, hashed: bool,
                             identity: Option<Key>, bearer: Option<Option<string>>)

  datatype Registration = Registered(principal: Principal) | BadRequest | AlreadyRegistered | NotHashed | BadIdentity | BadToken
                        | Refused(error: LinkError) | TokenUnavailable | CredentialFailed | RollbackFailed

  /** The identity tables and the logins that have a password credential. */
  datatype Accounts = Accounts(db: Db, logins: set<string>)

  /** The checks made before anything is bound. */
  function Checked(logins: set<string>, request: Request): Option<Registration>
  {
    if request.login.None? || !request.passwordOk || !request.nameOk then Some(BadRequest)
    else if request.login.value in logins then Some(AlreadyRegistered)
    else if !request.hashed then Some(NotHashed)
    else if request.identity.None? then Some(BadIdentity)
    else if request.bearer == Some(None) then Some(BadToken)
    else None
  }

  function RegisterSpec(policy: Policy, s: Accounts, request: Request, candidate: Principal, issued: bool, written: bool): (Accounts, Registration)
  {
    var early := Checked(s.logins, request);
    if early.Some? then (s, early.value)
    else
      var k := request.identity.value;
      var (bound, result) :=
        if request.bearer.Some? then LinkSpec(policy, s.db, request.bearer.value.value, Some(k)) else LoginSpec(policy, s.db, Some(k), candidate);
      if result.Failed? then (s.(db := bound), Refused(result.error))
      else if !issued then (s.(db := bound), TokenUnavailable)
      else if written then (Accounts(bound, s.logins + {request.login.value}), Registered(result.principal))
      else
        var tx := Rollback(bound, result.principal.id, k);
        (s.(db := After(bound, tx)), if tx.Committed? then CredentialFailed else RollbackFailed)
  }

  class CredentialStore {
    var logins: set<string>

    constructor ()
      ensures logins == {}
    {
      logins := {};
    }
  }

  /** `issued` and `written` tell whether signing the token and writing the credential succeed. */
  method Register(store: PrincipalStore, credentials: CredentialStore, policy: Policy, request: Request, candidate: Principal,
                  issued: bool, written: bool)
    returns (r: Registration)
    modifies store`principals, store`bindings, credentials`logins
    ensures (Accounts(store.Abs(), credentials.logins), r)
      == RegisterSpec(policy, Accounts(old(store.Abs()), old(credentials.logins)), request, candidate, issued, written)
  {
    if request.login.None? || !request.passwordOk || !request.nameOk {
      return BadRequest;
    }
    if request.login.value in credentials.logins {
      return AlreadyRegistered;
    }
    if !request.hashed {
      return NotHashed;
    }
    if request.identity.None? {
      return BadIdentity;
    }
    var result;
    match request.bearer {
      case Some(None) =>
        return BadToken;
      case Some(Some(pid)) =>
        result := LinkIdentity(store, policy, pid, request.identity);
      case None =>
        result := ResolveLogin(store, policy, request.identity, candidate);
    }
    if result.Failed? {
      return Refused(result.error);
    }
    if !issued {
      return TokenUnavailable;
    }
    if !written {
      var rollback := store.RollbackIdentityBinding(result.principal.id, request.identity.value);
      if rollback.Aborted? {
        return RollbackFailed;
      }
      return CredentialFailed;
    }
    credentials.logins := credentials.logins + {request.login.value};
    return Registered(result.principal);
  }

  /** Rows are filed under their own id. */
  ghost predicate Filed(db: Db)
  {
    forall id :: id in db.principals ==> db.principals[id].id == id
  }

  /** A login gains a credential exactly when the call succeeds, and then it had none before. */
  lemma RegisteredOnce(policy: Policy, s: Accounts, request: Request, candidate: Principal, issued: bool, written: bool)
    ensures var (after, r) := RegisterSpec(policy, s, request, candidate, issued, written);
      if r.Registered? then request.login.Some? && request.login.value !in s.logins && after.logins == s.logins + {request.login.value}
      else after.logins == s.logins
  {
    hide LinkSpec, LoginSpec, Rollback;
  }

  /** A token that cannot be signed leaves the new binding behind, unless the identity was bound all along. */
  lemma UnissuedKeepsBinding(policy: Policy, s: Accounts, request: Request, candidate: Principal, written: bool)
    requires RegisterSpec(policy, s, request, candidate, false, written).1 == TokenUnavailable
    ensures RegisterSpec(policy, s, request, candidate, false, written).0 == s <==> request.identity.value in s.db.bindings
  {
    var k, after := request.identity.value, RegisterSpec(policy, s, request, candidate, false, written).0;
    assert k in after.db.bindings;
  }

  /**
   When the credential write fails and the rollback succeeds, all tables are as before the call, if
   and only if the (randomly drawn) identity was not already bound.
   */
  lemma RegistrationCompensates(policy: Policy, s: Accounts, request: Request, candidate: Principal)
    requires Consistent(s.db) && Filed(s.db)
    requires RegisterSpec(policy, s, request, candidate, true, false).1 == CredentialFailed
    ensures RegisterSpec(policy, s, request, candidate, true, false).0 == s <==> request.identity.value !in s.db.bindings
  {
    var k, after := request.identity.value, RegisterSpec(policy, s, request, candidate, true, false).0;
    if request.bearer.Some? {
      LinkThenRollback(policy, s.db, request.bearer.value.value, k);
    } else if k in s.db.bindings {
      assert k !in after.db.bindings;
    } else {
      CreateThenRollback(s.db, candidate, k);
    }
  }

  /** The failing input: an identity that is bound already; the compensation deletes its Principal. */
  lemma CompensationDeletesBound()
    ensures var p, k := Principal("p", User, "P", Active), Key("standalone", "s", "1");
      var s := Accounts(Db(map["p" := p], map[k := "p"], {}), {});
      RegisterSpec(Policy(true, {}, []), s, Request(Some("login"), true, true, true, Some(k), None), p, true, false)
        == (Accounts(Db(map[], map[], {}), {}), CredentialFailed)
  {
    var p, k := Principal("p", User, "P", Active), Key("standalone", "s", "1");
    var db := Db(map["p" := p], map[k := "p"], {});
    assert FindByIdentity(db, k) == Some(p);
    assert db.bindings - {k} == map[] && db.principals - {"p"} == map[];
    assert !IsBound(db.bindings - {k}, "p");
    assert Rollback(db, "p", k) == Committed(Db(map[], map[], {}), ());
  }

  lemma CreateThenRollback(db: Db, p: Principal, k: Key)
    requires Consistent(db) && CreateAndBind(db, p, k).Committed?
    ensures Rollback(CreateAndBind(db, p, k).db, p.id, k) == Committed(db, ())
  {
    var bound := CreateAndBind(db, p, k).db;
    assert bound.bindings - {k} == db.bindings;
    assert bound.principals - {p.id} == db.principals;
    assert !IsBound(db.bindings, p.id);
  }

  /** The permission for the link came from another binding, so undoing the link never deletes the Principal. */
  lemma LinkThenRollback(policy: Policy, db: Db, pid: string, k: Key)
    requires Consistent(db) && Filed(db) && LinkSpec(policy, db, pid, Some(k)).1.Linked?
    ensures var (bound, result) := LinkSpec(policy, db, pid, Some(k));
      k !in db.bindings && result.principal.id == pid && Rollback(bound, pid, k) == Committed(db, ())
  {
    var bound := LinkSpec(policy, db, pid, Some(k)).0;
    assert bound.bindings - {k} == db.bindings;
    var i :| 0 <= i < |policy.allowLink| && k.provider in policy.allowLink[i].1 && HasProvider(db, pid, policy.allowLink[i].0);
    assert IsBound(db.bindings, pid);
  }
}
