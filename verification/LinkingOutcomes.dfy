/**
 The outcomes of account linking read off the two tables: when a login, a link or a registration
 answers a Principal, when it is refused and why, and which rows it leaves.  `db` holds the tables
 before the call; foreign keys hold and rows are filed under their own id, as in every reachable state.
 */
module LinkingOutcomes {
  import opened Strings
  import opened IdentityStore
  import opened AccountLinking
  import opened LinkingRuns

  // ----- Logins -----

  /** The identity is free, the policy lets its provider found an account, and the drawn id is free. */
  ghost predicate Founding(policy: Policy, db: Db, k: Key, candidate: Principal)
  {
    k !in db.bindings && candidate.id !in db.principals && (policy.firstLogin || k.provider in policy.authoritative)
  }

  /** `p` is the active row the identity is bound to, and it was bound before or the policy allowed it. */
  ghost predicate LoggedIn(policy: Policy, before: Db, after: Db, k: Key, p: Principal)
  {
    && k in after.bindings && after.bindings[k] == p.id && p.id in after.principals && after.principals[p.id] == p
    && p.status == Active
    && (k in before.bindings || policy.firstLogin || k.provider in policy.authoritative)
  }

  /** A login answers `p` exactly when the identity is afterwards bound to `p`, and `p` is active. */
  lemma LoginIff(policy: Policy, db: Db, identity: Option<Key>, candidate: Principal, p: Principal)
    requires Consistent(db) && Filed(db)
    ensures var (after, r) := LoginSpec(policy, db, identity, candidate);
      r == Linked(p) <==> identity.Some? && LoggedIn(policy, db, after, identity.value, p)
  {
  }

  /** The tables after a login: one new row and its binding, or nothing. */
  lemma LoginTables(policy: Policy, db: Db, identity: Option<Key>, candidate: Principal)
    requires Consistent(db)
    ensures var after := LoginSpec(policy, db, identity, candidate).0;
      var founds := identity.Some? && Founding(policy, db, identity.value, candidate);
      && after.principals == (if founds then db.principals[candidate.id := candidate] else db.principals)
      && after.bindings == (if founds then db.bindings[identity.value := candidate.id] else db.bindings)
      && after.referenced == db.referenced
  {
  }

  /** The row this login is about is disabled: the bound one, or the one it founds. */
  ghost predicate Disables(policy: Policy, db: Db, k: Key, candidate: Principal)
    requires Consistent(db)
  {
    if k in db.bindings then db.principals[db.bindings[k]].status == Disabled
    else Founding(policy, db, k, candidate) && candidate.status == Disabled
  }

  /** Why a login is refused. */
  lemma LoginErrors(policy: Policy, db: Db, identity: Option<Key>, candidate: Principal)
    requires Consistent(db)
    ensures var r := LoginSpec(policy, db, identity, candidate).1;
      && (r == Failed(InvalidIdentity) <==> identity.None?)
      && (r == Failed(PrincipalDisabled) <==> identity.Some? && Disables(policy, db, identity.value, candidate))
      && (r == Failed(AuthoritativeLoginRequired) <==>
           && identity.Some? && identity.value !in db.bindings
           && !policy.firstLogin && identity.value.provider !in policy.authoritative)
      && (r == Failed(IdentityAlreadyBound) <==>
           && identity.Some? && identity.value !in db.bindings && candidate.id in db.principals
           && (policy.firstLogin || identity.value.provider in policy.authoritative))
      && r != Failed(LinkNotAllowed) && r != Failed(Repository)
  {
  }

  // ----- Links -----

  /** Some identity of the Principal comes from a provider that may add this one. */
  ghost predicate Permitted(policy: Policy, db: Db, pid: string, provider: string)
  {
    exists j, i ::
      && j in db.bindings && db.bindings[j] == pid
      && 0 <= i < |policy.allowLink| && policy.allowLink[i].0 == j.provider && provider in policy.allowLink[i].1
  }

  lemma PermittedIff(policy: Policy, db: Db, pid: string, provider: string)
    ensures Permitted(policy, db, pid, provider) <==> LinkPermitted(policy, db, pid, provider)
  {
    if LinkPermitted(policy, db, pid, provider) {
      var i :| 0 <= i < |policy.allowLink| && provider in policy.allowLink[i].1 && HasProvider(db, pid, policy.allowLink[i].0);
      var j :| j in db.bindings && db.bindings[j] == pid && j.provider == policy.allowLink[i].0;
    }
  }

  /** A link answers `p` exactly when it is permitted, the identity is free, and `p` is the active row. */
  lemma LinkIff(policy: Policy, db: Db, pid: string, identity: Option<Key>, p: Principal)
    requires Consistent(db)
    ensures var r := LinkSpec(policy, db, pid, identity).1;
      r == Linked(p) <==>
        && identity.Some? && Permitted(policy, db, pid, identity.value.provider) && identity.value !in db.bindings
        && pid in db.principals && db.principals[pid] == p && p.status == Active
  {
    hide Permitted, LinkPermitted;
    if identity.Some? {
      PermittedIff(policy, db, pid, identity.value.provider);
    }
  }

  /** The tables after a link: one new binding when it is permitted and free, whether or not the Principal is active. */
  lemma LinkTables(policy: Policy, db: Db, pid: string, identity: Option<Key>)
    requires Consistent(db)
    ensures var after := LinkSpec(policy, db, pid, identity).0;
      var binds := identity.Some? && Permitted(policy, db, pid, identity.value.provider) && identity.value !in db.bindings;
      && after.principals == db.principals && after.referenced == db.referenced
      && after.bindings == (if binds then db.bindings[identity.value := pid] else db.bindings)
  {
    hide Permitted, LinkPermitted;
    if identity.Some? {
      PermittedIff(policy, db, pid, identity.value.provider);
      if Permitted(policy, db, pid, identity.value.provider) {
        PermittedIsStored(policy, db, pid, identity.value.provider);
      }
    }
  }

  lemma PermittedIsStored(policy: Policy, db: Db, pid: string, provider: string)
    requires Consistent(db) && Permitted(policy, db, pid, provider)
    ensures pid in db.principals
  {
  }

  /** Why a link is refused. */
  lemma LinkErrors(policy: Policy, db: Db, pid: string, identity: Option<Key>)
    requires Consistent(db)
    ensures var r := LinkSpec(policy, db, pid, identity).1;
      && (r == Failed(InvalidIdentity) <==> identity.None?)
      && (r == Failed(LinkNotAllowed) <==> identity.Some? && !Permitted(policy, db, pid, identity.value.provider))
      && (r == Failed(IdentityAlreadyBound) <==>
           identity.Some? && Permitted(policy, db, pid, identity.value.provider) && identity.value in db.bindings)
      && (r == Failed(PrincipalDisabled) <==>
           && identity.Some? && Permitted(policy, db, pid, identity.value.provider) && identity.value !in db.bindings
           && pid in db.principals && db.principals[pid].status == Disabled)
      && r != Failed(AuthoritativeLoginRequired) && r != Failed(Repository)
  {
    hide Permitted, LinkPermitted;
    if identity.Some? {
      PermittedIff(policy, db, pid, identity.value.provider);
      if Permitted(policy, db, pid, identity.value.provider) {
        PermittedIsStored(policy, db, pid, identity.value.provider);
      }
    }
  }

  /** Disabling a Principal shuts out every identity bound to it; enabling it lets them all in again. */
  lemma StatusDecidesLogin(policy: Policy, db: Db, pid: string, status: Status, k: Key, candidate: Principal)
    requires Consistent(db) && Filed(db) && k in db.bindings && db.bindings[k] == pid
    ensures var after := After(db, UpdateStatus(db, pid, status));
      && LoginSpec(policy, after, Some(k), candidate) ==
           (after, if status == Disabled then Failed(PrincipalDisabled) else Linked(db.principals[pid].(status := Active)))
      && after.bindings == db.bindings && after.principals.Keys == db.principals.Keys
      && forall q :: q in db.principals && q != pid ==> after.principals[q] == db.principals[q]
  {
  }

  // ----- AuthZ writers -----

  /** What lookups find after an upsert: the written row for every identity bound to it, and otherwise what they found before. */
  lemma UpsertFinds(db: Db, p: Principal, k: Key, j: Key)
    requires Consistent(db) && Filed(db)
    ensures var tx := UpsertWithIdentity(db, p, p.id, k);
      && (tx.Committed? <==>
           && (exists i :: 0 <= i < |p.id| && p.id[i] !in " \t\r\n")
           && (exists i :: 0 <= i < |p.displayName| && p.displayName[i] !in " \t\r\n")
           && (k in db.bindings ==> db.bindings[k] == p.id))
      && FindByIdentity(After(db, tx), j)
         == (if tx.Committed? && (j == k || (j in db.bindings && db.bindings[j] == p.id)) then Some(p) else FindByIdentity(db, j))
  {
  }

  /** After a deletion none of the Principal's identities is found, and every other one is found as before. */
  lemma DeleteFinds(db: Db, pid: string, j: Key)
    requires Consistent(db) && Filed(db)
    ensures var tx := Delete(db, pid);
      && (tx.Aborted? <==> pid in db.referenced)
      && (tx.Committed? ==> (tx.value <==> pid in db.principals) && pid !in tx.db.principals)
      && FindByIdentity(After(db, tx), j)
         == (if tx.Committed? && j in db.bindings && db.bindings[j] == pid then None else FindByIdentity(db, j))
  {
  }

  /** After a rollback only that identity is gone, and its Principal with it when no other identity is bound to it. */
  lemma RollbackFinds(db: Db, pid: string, k: Key, j: Key)
    requires Consistent(db) && Filed(db)
    ensures var tx := Rollback(db, pid, k);
      var other := exists o :: o in db.bindings && db.bindings[o] == pid && o != k;
      && (tx.Aborted? <==> !other && pid in db.referenced)
      && (tx.Committed? ==> tx.db.principals == (if other then db.principals else db.principals - {pid}))
      && FindByIdentity(After(db, tx), j)
         == (if tx.Committed? && j == k && k in db.bindings && db.bindings[k] == pid then None else FindByIdentity(db, j))
  {
    var bindings := if k in db.bindings && db.bindings[k] == pid then db.bindings - {k} else db.bindings;
    if o :| o in db.bindings && db.bindings[o] == pid && o != k {
      assert o in bindings && bindings[o] == pid;
    }
    if IsBound(bindings, pid) {
      var o :| o in bindings && bindings[o] == pid;
      assert o in db.bindings && db.bindings[o] == pid && o != k;
    } else {
      assert forall o :: o in bindings ==> bindings[o] != pid;
    }
  }

  // ----- Registration -----

  /** The request is well formed, its login is free, and any bearer token verifies. */
  ghost predicate Admissible(s: Accounts, request: Request)
  {
    && request.login.Some? && request.passwordOk && request.nameOk && request.login.value !in s.logins && request.hashed
    && request.identity.Some? && request.bearer != Some(None)
  }

  /** The identity is settled on `p`: linked to the bearer's Principal, or logged in. */
  ghost predicate Settled(policy: Policy, s: Accounts, request: Request, candidate: Principal, p: Principal)
    requires Admissible(s, request)
  {
    var k := request.identity.value;
    if request.bearer.Some? then
      var pid := request.bearer.value.value;
      && Permitted(policy, s.db, pid, k.provider) && k !in s.db.bindings
      && pid in s.db.principals && s.db.principals[pid] == p && p.status == Active
    else
      && p.status == Active
      && if k in s.db.bindings then s.db.bindings[k] == p.id && p.id in s.db.principals && s.db.principals[p.id] == p
         else Founding(policy, s.db, k, candidate) && p == candidate
  }

  /** The tables once the identity is settled. */
  ghost function Bound(s: Accounts, request: Request, p: Principal): Db
    requires request.identity.Some?
  {
    var k := request.identity.value;
    Db(if request.bearer.None? && k !in s.db.bindings then s.db.principals[p.id := p] else s.db.principals,
       s.db.bindings[k := p.id], s.db.referenced)
  }

  /** The tables once a failed registration is compensated: the identity is free, and its Principal gone unless another is bound to it. */
  ghost function Unbound(s: Accounts, request: Request, p: Principal): Db
    requires request.identity.Some?
  {
    var k := request.identity.value;
    var shared := exists o :: o in s.db.bindings && s.db.bindings[o] == p.id && o != k;
    Db(if shared then s.db.principals else s.db.principals - {p.id}, s.db.bindings - {k}, s.db.referenced)
  }

  lemma SettledIff(policy: Policy, s: Accounts, request: Request, candidate: Principal, p: Principal)
    requires Consistent(s.db) && Filed(s.db) && Admissible(s, request)
    ensures var k := Some(request.identity.value);
      var (bound, r) :=
        if request.bearer.Some? then LinkSpec(policy, s.db, request.bearer.value.value, k) else LoginSpec(policy, s.db, k, candidate);
      && (r == Linked(p) <==> Settled(policy, s, request, candidate, p))
      && (r == Linked(p) ==> bound == Bound(s, request, p))
  {
    hide Permitted, LinkPermitted;
    if request.bearer.Some? {
      LinkIff(policy, s.db, request.bearer.value.value, request.identity, p);
      LinkTables(policy, s.db, request.bearer.value.value, request.identity);
    } else if request.identity.value in s.db.bindings {
      assert s.db.bindings[request.identity.value := s.db.bindings[request.identity.value]] == s.db.bindings;
    }
  }

  /** Registration succeeds exactly when the request is admissible, settles on `p`, and both later steps work. */
  lemma RegisterIff(policy: Policy, s: Accounts, request: Request, candidate: Principal, issued: bool, written: bool, p: Principal)
    requires Consistent(s.db) && Filed(s.db)
    ensures var (after, r) := RegisterSpec(policy, s, request, candidate, issued, written);
      && (r == Registered(p) <==> Admissible(s, request) && Settled(policy, s, request, candidate, p) && issued && written)
      && (r == Registered(p) ==> after == Accounts(Bound(s, request, p), s.logins + {request.login.value}))
  {
    hide LinkSpec, LoginSpec, Settled, Bound, Rollback;
    if Admissible(s, request) {
      SettledIff(policy, s, request, candidate, p);
    }
  }

  /** The checks are made in this order, and each refusal leaves everything as it was. */
  lemma EarlyRefusals(policy: Policy, s: Accounts, request: Request, candidate: Principal, issued: bool, written: bool)
    ensures var (after, r) := RegisterSpec(policy, s, request, candidate, issued, written);
      var valid := request.login.Some? && request.passwordOk && request.nameOk;
      var free := valid && request.login.value !in s.logins;
      && (r == BadRequest <==> !valid)
      && (r == AlreadyRegistered <==> valid && request.login.value in s.logins)
      && (r == NotHashed <==> free && !request.hashed)
      && (r == BadIdentity <==> free && request.hashed && request.identity.None?)
      && (r == BadToken <==> free && request.hashed && request.identity.Some? && request.bearer == Some(None))
      && (!Admissible(s, request) ==> after == s)
  {
    hide LinkSpec, LoginSpec, Rollback;
  }

  /** What becomes of an admissible request that is not registered. */
  lemma LateRefusals(policy: Policy, s: Accounts, request: Request, candidate: Principal, issued: bool, written: bool)
    requires Consistent(s.db) && Filed(s.db) && Admissible(s, request)
    ensures var (after, r) := RegisterSpec(policy, s, request, candidate, issued, written);
      && (r.Refused? <==> forall p :: !Settled(policy, s, request, candidate, p))
      && (r == TokenUnavailable <==> !r.Refused? && !issued)
      && (r == CredentialFailed || r == RollbackFailed <==> !r.Refused? && issued && !written)
      && (r == RollbackFailed <==> issued && !written && exists p ::
            && Settled(policy, s, request, candidate, p) && p.id in s.db.referenced
            && forall o :: o in s.db.bindings && s.db.bindings[o] == p.id ==> o == request.identity.value)
      && (r == TokenUnavailable || r == RollbackFailed ==> exists p ::
            Settled(policy, s, request, candidate, p) && after == Accounts(Bound(s, request, p), s.logins))
      && (r == CredentialFailed ==> exists p ::
            Settled(policy, s, request, candidate, p) && after == Accounts(Unbound(s, request, p), s.logins))
  {
    var k := Some(request.identity.value);
    var (bound, found) :=
      if request.bearer.Some? then LinkSpec(policy, s.db, request.bearer.value.value, k) else LoginSpec(policy, s.db, k, candidate);
    forall p ensures (found == Linked(p) <==> Settled(policy, s, request, candidate, p)) && (found == Linked(p) ==> bound == Bound(s, request, p)) {
      SettledIff(policy, s, request, candidate, p);
    }
    hide LinkSpec, LoginSpec, Settled;
    if found.Linked? {
      assert Settled(policy, s, request, candidate, found.principal);
      RollbackRefusedIff(s, request, found.principal);
      RollbackUnbinds(policy, s, request, candidate, found.principal);
    }
  }

  lemma RollbackRefusedIff(s: Accounts, request: Request, p: Principal)
    requires request.identity.Some?
    ensures Rollback(Bound(s, request, p), p.id, request.identity.value).Aborted? <==>
      && p.id in s.db.referenced
      && forall o :: o in s.db.bindings && s.db.bindings[o] == p.id ==> o == request.identity.value
  {
    var k, bound := request.identity.value, Bound(s, request, p).bindings;
    assert bound[k] == p.id;
    if o :| o in s.db.bindings && s.db.bindings[o] == p.id && o != k {
      assert (bound - {k})[o] == p.id;
    }
  }

  lemma RollbackUnbinds(policy: Policy, s: Accounts, request: Request, candidate: Principal, p: Principal)
    requires Consistent(s.db) && Filed(s.db) && Admissible(s, request) && Settled(policy, s, request, candidate, p)
    ensures var tx := Rollback(Bound(s, request, p), p.id, request.identity.value);
      tx.Committed? ==> tx.db == Unbound(s, request, p)
  {
    hide Permitted;
    var k, bound := request.identity.value, Bound(s, request, p);
    assert bound.bindings[k] == p.id && bound.bindings - {k} == s.db.bindings - {k};
    var free := s.db.bindings - {k};
    if o :| o in s.db.bindings && s.db.bindings[o] == p.id && o != k {
      assert free[o] == p.id && p.id in s.db.principals;
      assert bound.principals == s.db.principals;
    } else {
      assert forall o :: o in free ==> s.db.bindings[o] == free[o];
      assert !IsBound(free, p.id);
      assert bound.principals - {p.id} == s.db.principals - {p.id};
    }
  }

  // ----- Processes run alone -----

  ghost function StepsLeft(policy: Policy, p: Process): nat
  {
    match p
    case LoginFind(_) => 2
    case LinkCheck(_, _, i) => if i < |policy.allowLink| then |policy.allowLink| - i + 2 else 1
    case Finished(_, _) => 0
    case _ => 1
  }

  /** One process run to its end with nothing in between. */
  ghost function Alone(policy: Policy, db: Db, p: Process, candidate: Principal): (Db, Process)
    decreases StepsLeft(policy, p)
  {
    if p.Finished? then (db, p)
    else
      var (db', p') := AdvanceProcess(policy, db, p, candidate);
      Alone(policy, db', p', candidate)
  }

  ghost function Answered(k: Key, r: LinkResult): Process
  {
    Finished(k, if r.Linked? then Some(r.principal.id) else None)
  }

  /** A login process that nothing interrupts does what the call does. */
  lemma LoginAlone(policy: Policy, db: Db, k: Key, candidate: Principal)
    ensures var (after, r) := LoginSpec(policy, db, Some(k), candidate);
      Alone(policy, db, LoginFind(k), candidate) == (after, Answered(k, r))
  {
    var (db', p') := AdvanceProcess(policy, db, LoginFind(k), candidate);
    if p'.LoginCreate? {
      var (db'', p'') := AdvanceProcess(policy, db', p', candidate);
      assert Alone(policy, db', p', candidate) == (db'', p'');
    }
  }

  /** And so does a link process. */
  lemma LinkAlone(policy: Policy, db: Db, pid: string, k: Key, candidate: Principal)
    ensures var (after, r) := LinkSpec(policy, db, pid, Some(k));
      Alone(policy, db, LinkCheck(pid, k, 0), candidate) == (after, Answered(k, r))
  {
    LinkAloneFrom(policy, db, pid, k, 0, candidate);
    BindAlone(policy, db, pid, k, candidate);
  }

  lemma BindAlone(policy: Policy, db: Db, pid: string, k: Key, candidate: Principal)
    ensures var tx := Bind(db, pid, k);
      Alone(policy, db, LinkBind(pid, k), candidate)
        == (After(db, tx), Answered(k, if tx.Committed? then Context(tx.value) else Failed(MapError(tx.error))))
  {
    var (db', p') := AdvanceProcess(policy, db, LinkBind(pid, k), candidate);
  }

  lemma {:induction false} LinkAloneFrom(policy: Policy, db: Db, pid: string, k: Key, i: nat, candidate: Principal)
    requires i <= |policy.allowLink|
    ensures Alone(policy, db, LinkCheck(pid, k, i), candidate)
      == if exists n :: i <= n < |policy.allowLink| && k.provider in policy.allowLink[n].1 && HasProvider(db, pid, policy.allowLink[n].0)
         then Alone(policy, db, LinkBind(pid, k), candidate) else (db, Finished(k, None))
    decreases |policy.allowLink| - i
  {
    hide HasProvider;
    if i < |policy.allowLink| && !(k.provider in policy.allowLink[i].1 && HasProvider(db, pid, policy.allowLink[i].0)) {
      LinkAloneFrom(policy, db, pid, k, i + 1, candidate);
    }
  }
}
