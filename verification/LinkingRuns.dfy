/**
 Account linking under concurrency.  Each call is a process that takes one repository access per
 step; the steps of all processes, and of AuthZ writers, interleave freely.
 */
module LinkingRuns {
  import opened Strings
  import opened IdentityStore
  import opened AccountLinking

  datatype Process =
    | LoginFind(key: Key)                                // about to look the identity up
    | LoginCreate(key: Key, candidate: Principal)        // not found: about to create with this Principal
    | LinkCheck(pid: string, key: Key, next: nat)        // about to test the next entry of `allow_link`
    | LinkBind(pid: string, key: Key)                    // permitted: about to bind
    | Unbind(pid: string, key: Key)                      // about to roll a binding back
    | Finished(key: Key, answer: Option<string>)          // the Principal answered, if any

  datatype Sys = Sys(db: Db, procs: map<nat, Process>)

  datatype Action =
    | Call(n: nat, start: Process)                       // a new call arrives
    | Advance(n: nat, candidate: Principal)              // process n does its next repository access
    | AuthzUpsert(p: Principal)
    | AuthzUpsertWithIdentity(p: Principal, pid: string, key: Key)
    | AuthzStatus(pid: string, status: Status)
    | AuthzDelete(pid: string)
    | Grant(pid: string)                                 // a role binding starts, or stops, referring to the Principal
    | Revoke(pid: string)

  predicate IsStart(p: Process)
  {
    p.LoginFind? || (p.LinkCheck? && p.next == 0) || p.Unbind?
  }

  function Answer(key: Key, p: Option<Principal>): Process
  {
    Finished(key, if p.Some? && p.value.status == Active then Some(p.value.id) else None)
  }

  function TxAnswer(key: Key, tx: Tx<Principal>): Process
  {
    Answer(key, if tx.Committed? then Some(tx.value) else None)
  }

  /** One repository access of a process: the new database and what the process does next. */
  function AdvanceProcess(policy: Policy, db: Db, p: Process, candidate: Principal): (Db, Process)
  {
    match p
    case LoginFind(k) =>
      var found := FindByIdentity(db, k);
      if found.Some? then (db, Answer(k, found))
      else if MayCreate(policy, k.provider) then (db, LoginCreate(k, candidate))
      else (db, Finished(k, None))
    case LoginCreate(k, c) =>
      var tx := CreateAndBind(db, c, k);
      (After(db, tx), TxAnswer(k, tx))
    case LinkCheck(pid, k, i) =>
      if i >= |policy.allowLink| then (db, Finished(k, None))
      else if k.provider in policy.allowLink[i].1 && HasProvider(db, pid, policy.allowLink[i].0) then (db, LinkBind(pid, k))
      else (db, LinkCheck(pid, k, i + 1))
    case LinkBind(pid, k) =>
      var tx := Bind(db, pid, k);
      (After(db, tx), TxAnswer(k, tx))
    case Unbind(pid, k) => (After(db, Rollback(db, pid, k)), Finished(k, None))
    case Finished(_, _) => (db, p)
  }

  function Apply(policy: Policy, s: Sys, a: Action): Sys
  {
    match a
    case Call(n, start) => if n in s.procs || !IsStart(start) then s else s.(procs := s.procs[n := start])
    case Advance(n, c) =>
      if n !in s.procs then s
      else
        var (db, p) := AdvanceProcess(policy, s.db, s.procs[n], c);
        Sys(db, s.procs[n := p])
    case AuthzUpsert(p) => s.(db := After(s.db, Upsert(s.db, p)))
    case AuthzUpsertWithIdentity(p, pid, k) => s.(db := After(s.db, UpsertWithIdentity(s.db, p, pid, k)))
    case AuthzStatus(pid, status) => s.(db := After(s.db, UpdateStatus(s.db, pid, status)))
    case AuthzDelete(pid) => s.(db := After(s.db, Delete(s.db, pid)))
    case Grant(pid) => if pid in s.db.principals then s.(db := s.db.(referenced := s.db.referenced + {pid})) else s
    case Revoke(pid) => s.(db := s.db.(referenced := s.db.referenced - {pid}))
  }

  const EMPTY := Sys(Db(map[], map[], {}), map[])

  /** The system after a sequence of actions, from empty tables. */
  function Reached(policy: Policy, actions: seq<Action>): Sys
  {
    if actions == [] then EMPTY
    else Apply(policy, Reached(policy, actions[..|actions| - 1]), actions[|actions| - 1])
  }

  lemma ReachedStep(policy: Policy, actions: seq<Action>, i: nat)
    requires i < |actions|
    ensures Reached(policy, actions[..i + 1]) == Apply(policy, Reached(policy, actions[..i]), actions[i])
  {
    assert actions[..i + 1][..i] == actions[..i];
  }

  // ----- Binding stability -----

  lemma ApplyKeeps(policy: Policy, s: Sys, a: Action)
    requires Consistent(s.db)
    ensures Keeps(s.db, Apply(policy, s, a).db)
  {
    match a
    case Call(_, _) =>
    case Advance(n, c) =>
      if n in s.procs {
        AdvanceKeeps(policy, s.db, s.procs[n], c);
      }
    case AuthzUpsert(p) => UpsertKeeps(s.db, p, p.id, Key("", "", ""));
    case AuthzUpsertWithIdentity(p, pid, k) => UpsertKeeps(s.db, p, pid, k);
    case AuthzStatus(pid, status) => StatusKeeps(s.db, pid, status);
    case AuthzDelete(pid) => DeleteKeeps(s.db, pid);
    case Grant(_) =>
    case Revoke(_) =>
  }

  lemma AdvanceKeeps(policy: Policy, db: Db, p: Process, c: Principal)
    requires Consistent(db)
    ensures Keeps(db, AdvanceProcess(policy, db, p, c).0)
  {
    match p
    case LoginFind(_) =>
    case LoginCreate(k, q) => CreateKeeps(db, q, k);
    case LinkCheck(_, _, _) =>
    case LinkBind(pid, k) => BindKeeps(db, pid, k);
    case Unbind(pid, k) => RollbackKeeps(db, pid, k);
    case Finished(_, _) =>
  }

  lemma {:induction false} ReachedConsistent(policy: Policy, actions: seq<Action>)
    ensures Consistent(Reached(policy, actions).db)
  {
    if actions != [] {
      var init := actions[..|actions| - 1];
      ReachedConsistent(policy, init);
      ApplyKeeps(policy, Reached(policy, init), actions[|actions| - 1]);
    }
  }

  /** The identity is bound in every state from i to j. */
  ghost predicate BoundThroughout(policy: Policy, actions: seq<Action>, i: nat, j: nat, k: Key)
    requires i <= j <= |actions|
  {
    forall n :: i <= n <= j ==> k in Reached(policy, actions[..n]).db.bindings
  }

  /** A bound identity never moves: as long as it stays bound, it is bound to the same Principal. */
  lemma {:induction false} BindingsDoNotMove(policy: Policy, actions: seq<Action>, i: nat, j: nat, k: Key)
    requires i <= j <= |actions| && BoundThroughout(policy, actions, i, j, k)
    ensures Reached(policy, actions[..j]).db.bindings[k] == Reached(policy, actions[..i]).db.bindings[k]
    decreases j
  {
    hide Apply, Reached;
    if i < j {
      BindingsDoNotMove(policy, actions, i, j - 1, k);
      ReachedConsistent(policy, actions[..j - 1]);
      ReachedStep(policy, actions, j - 1);
      ApplyKeeps(policy, Reached(policy, actions[..j - 1]), actions[j - 1]);
    }
  }

  /** An upsert for an identity bound to someone else changes neither table. */
  lemma ConflictingUpsertChangesNothing(policy: Policy, s: Sys, p: Principal, pid: string, k: Key)
    requires k in s.db.bindings && s.db.bindings[k] != pid
    ensures Apply(policy, s, AuthzUpsertWithIdentity(p, pid, k)) == s
  {
  }

  // ----- First logins -----

  /** Step i completes a login or link of `k` with the answer `pid`. */
  ghost predicate Completes(policy: Policy, actions: seq<Action>, i: nat, n: nat, k: Key, pid: string)
    requires i < |actions|
  {
    var s, s' := Reached(policy, actions[..i]), Reached(policy, actions[..i + 1]);
    && actions[i].Advance? && actions[i].n == n && n in s.procs && !s.procs[n].Finished?
    && n in s'.procs && s'.procs[n] == Finished(k, Some(pid))
  }

  lemma {:induction false} ReachedFiled(policy: Policy, actions: seq<Action>)
    ensures Filed(Reached(policy, actions).db)
  {
    hide Apply;
    if actions != [] {
      ReachedFiled(policy, actions[..|actions| - 1]);
      ApplyFiled(policy, Reached(policy, actions[..|actions| - 1]), actions[|actions| - 1]);
    }
  }

  lemma ApplyFiled(policy: Policy, s: Sys, a: Action)
    requires Filed(s.db)
    ensures Filed(Apply(policy, s, a).db)
  {
    hide HasProvider, IsBound, Blank;
  }

  /** Whoever gets an answer gets the Principal the identity is bound to at that moment. */
  lemma AnswerIsBinding(policy: Policy, actions: seq<Action>, i: nat, n: nat, k: Key, pid: string)
    requires i < |actions| && Completes(policy, actions, i, n, k, pid)
    ensures var db := Reached(policy, actions[..i + 1]).db; k in db.bindings && db.bindings[k] == pid
  {
    ReachedFiled(policy, actions[..i]);
    ReachedStep(policy, actions, i);
  }

  /** Racing logins of one identity never answer two Principals while the binding stands. */
  lemma RacingLoginsAgree(policy: Policy, actions: seq<Action>, i: nat, j: nat, n: nat, m: nat, k: Key, p: string, q: string)
    requires i <= j < |actions|
    requires Completes(policy, actions, i, n, k, p) && Completes(policy, actions, j, m, k, q)
    requires BoundThroughout(policy, actions, i + 1, j + 1, k)
    ensures p == q
  {
    hide Apply, Reached;
    AnswerIsBinding(policy, actions, i, n, k, p);
    AnswerIsBinding(policy, actions, j, m, k, q);
    BindingsDoNotMove(policy, actions, i + 1, j + 1, k);
  }

  // ----- No silent merge -----

  /** `k` is unbound before step i and bound to `pid` after it. */
  ghost predicate BindsAt(policy: Policy, actions: seq<Action>, i: nat, k: Key, pid: string)
    requires i < |actions|
  {
    var before, after := Reached(policy, actions[..i]).db, Reached(policy, actions[..i + 1]).db;
    k !in before.bindings && k in after.bindings && after.bindings[k] == pid
  }

  /** Step i binds `k` to `pid` through an explicit link or an AuthZ upsert. */
  ghost predicate Joins(policy: Policy, actions: seq<Action>, i: nat, k: Key, pid: string)
    requires i < |actions|
  {
    var s := Reached(policy, actions[..i]);
    && BindsAt(policy, actions, i, k, pid)
    && match actions[i]
       case Advance(n, _) => n in s.procs && s.procs[n] == LinkBind(pid, k)
       case AuthzUpsertWithIdentity(_, q, j) => q == pid && j == k
       case _ => false
  }

  /** Step i creates the Principal `pid` together with its first binding `k`. */
  ghost predicate Founds(policy: Policy, actions: seq<Action>, i: nat, k: Key, pid: string)
    requires i < |actions|
  {
    BindsAt(policy, actions, i, k, pid) && pid !in Reached(policy, actions[..i]).db.principals
  }

  lemma NewBinding(policy: Policy, actions: seq<Action>, i: nat, k: Key)
    requires i < |actions|
    requires k !in Reached(policy, actions[..i]).db.bindings && k in Reached(policy, actions[..i + 1]).db.bindings
    ensures var pid := Reached(policy, actions[..i + 1]).db.bindings[k];
      Joins(policy, actions, i, k, pid) || Founds(policy, actions, i, k, pid)
  {
    hide HasProvider, IsBound, Blank, Reached;
    ReachedStep(policy, actions, i);
  }

  /** The step at which the current binding of `k` was made. */
  lemma {:induction false} BindingOrigin(policy: Policy, actions: seq<Action>, j: nat, k: Key) returns (i: nat)
    requires j <= |actions| && k in Reached(policy, actions[..j]).db.bindings
    ensures i < j && k !in Reached(policy, actions[..i]).db.bindings
    ensures BoundThroughout(policy, actions, i + 1, j, k)
    decreases j
  {
    assert actions[..0] == [];
    assert k !in EMPTY.db.bindings;
    hide Apply;
    if k !in Reached(policy, actions[..j - 1]).db.bindings {
      i := j - 1;
    } else {
      i := BindingOrigin(policy, actions, j - 1, k);
    }
  }

  /**
   Two identities share a Principal only if a successful link or an AuthZ upsert bound one of them to
   it: logins alone never merge accounts.
   */
  lemma NoSilentMerge(policy: Policy, actions: seq<Action>, a: Key, b: Key)
    requires a != b
    requires var bindings := Reached(policy, actions).db.bindings; a in bindings && b in bindings && bindings[a] == bindings[b]
    ensures var pid := Reached(policy, actions).db.bindings[a];
      exists i :: 0 <= i < |actions| && (Joins(policy, actions, i, a, pid) || Joins(policy, actions, i, b, pid))
  {
    hide Apply, Reached;
    var j, pid := |actions|, Reached(policy, actions).db.bindings[a];
    assert actions[..j] == actions;
    var m := BindingOrigin(policy, actions, j, a);
    var n := BindingOrigin(policy, actions, j, b);
    BindingsDoNotMove(policy, actions, m + 1, j, a);
    BindingsDoNotMove(policy, actions, n + 1, j, b);
    NewBinding(policy, actions, m, a);
    NewBinding(policy, actions, n, b);
    if !Joins(policy, actions, m, a, pid) && !Joins(policy, actions, n, b, pid) {
      if m == n {
        OneBindingPerStep(policy, actions, m, a, b);
      } else if m < n {
        FoundsOnce(policy, actions, m, n, a, pid);
      } else {
        FoundsOnce(policy, actions, n, m, b, pid);
      }
      assert false;
    }
  }

  lemma OneBindingPerStep(policy: Policy, actions: seq<Action>, i: nat, a: Key, b: Key)
    requires i < |actions| && a != b
    requires var s := Reached(policy, actions[..i]).db; a !in s.bindings && b !in s.bindings
    ensures var s' := Reached(policy, actions[..i + 1]).db; a !in s'.bindings || b !in s'.bindings
  {
    hide HasProvider, IsBound, Blank, Reached;
    ReachedStep(policy, actions, i);
  }

  /** While `a` is bound to `pid` the Principal exists, so nothing can found it again. */
  lemma FoundsOnce(policy: Policy, actions: seq<Action>, m: nat, n: nat, a: Key, pid: string)
    requires m < n < |actions| && BoundThroughout(policy, actions, m + 1, n, a)
    requires Reached(policy, actions[..m + 1]).db.bindings[a] == pid
    ensures pid in Reached(policy, actions[..n]).db.principals
  {
    hide Apply, Reached;
    BindingsDoNotMove(policy, actions, m + 1, n, a);
    ReachedConsistent(policy, actions[..n]);
  }

  // ----- Where bound identities come from in the explicit strategy -----

  /** A chain of providers from an authoritative one, each permitted by the one before it. */
  ghost predicate Chain(policy: Policy, path: seq<string>)
  {
    && |path| >= 1 && path[0] in policy.authoritative
    && forall i :: 0 <= i < |path| - 1 ==> Edge(policy, path[i], path[i + 1])
  }

  predicate Edge(policy: Policy, from: string, to: string)
  {
    exists i :: 0 <= i < |policy.allowLink| && policy.allowLink[i].0 == from && to in policy.allowLink[i].1
  }

  ghost predicate Reachable(policy: Policy, provider: string)
  {
    exists path :: Chain(policy, path) && path[|path| - 1] == provider
  }

  lemma ReachableStep(policy: Policy, from: string, to: string)
    requires Reachable(policy, from) && Edge(policy, from, to)
    ensures Reachable(policy, to)
  {
    var path :| Chain(policy, path) && path[|path| - 1] == from;
    var longer := path + [to];
    forall i | 0 <= i < |longer| - 1 ensures Edge(policy, longer[i], longer[i + 1]) {
      if i < |path| - 1 {
        assert Edge(policy, path[i], path[i + 1]);
      }
    }
    assert Chain(policy, longer) && longer[|longer| - 1] == to;
  }

  lemma AuthoritativeReachable(policy: Policy, provider: string)
    requires provider in policy.authoritative
    ensures Reachable(policy, provider)
  {
    assert Chain(policy, [provider]);
  }

  /** The inductive invariant: it also says what a process that is about to write has already established. */
  ghost predicate Provenance(policy: Policy, s: Sys)
  {
    && (forall k :: k in s.db.bindings ==> Reachable(policy, k.provider))
    && (forall n :: n in s.procs ==>
          ((s.procs[n].LoginCreate? || s.procs[n].LinkBind?) ==> Reachable(policy, s.procs[n].key.provider)))
  }

  lemma ApplyProvenance(policy: Policy, s: Sys, a: Action)
    requires !policy.firstLogin && Provenance(policy, s) && !a.AuthzUpsertWithIdentity?
    ensures Provenance(policy, Apply(policy, s, a))
  {
    hide Reachable;
    var s' := Apply(policy, s, a);
    if a.Advance? && a.n in s.procs {
      var p := s.procs[a.n];
      if p.LoginFind? && p.key.provider in policy.authoritative {
        AuthoritativeReachable(policy, p.key.provider);
      }
      if p.LinkCheck? && p.next < |policy.allowLink| {
        var entry := policy.allowLink[p.next];
        if p.key.provider in entry.1 && HasProvider(s.db, p.pid, entry.0) {
          var k :| k in s.db.bindings && s.db.bindings[k] == p.pid && k.provider == entry.0;
          ReachableStep(policy, entry.0, p.key.provider);
        }
      }
    }
  }

  /**
   In the explicit strategy, in every reachable state of every interleaving of logins, links,
   rollbacks and other AuthZ writes that bind no identity, every bound identity comes from an
   authoritative provider or from one reachable from it through `allow_link`.
   */
  lemma {:induction false} BoundProvidersAreReachable(policy: Policy, actions: seq<Action>)
    requires !policy.firstLogin
    requires forall i :: 0 <= i < |actions| ==> !actions[i].AuthzUpsertWithIdentity?
    ensures Provenance(policy, Reached(policy, actions))
  {
    hide Reachable, Apply;
    if actions != [] {
      var init := actions[..|actions| - 1];
      BoundProvidersAreReachable(policy, init);
      ApplyProvenance(policy, Reached(policy, init), actions[|actions| - 1]);
    }
  }

  // ----- Compensation among other calls -----

  /** The step that undoes a binding deletes the Principal exactly when nothing else binds it and no role refers to it. */
  lemma UnbindDeletesIff(policy: Policy, s: Sys, n: nat, c: Principal, pid: string, k: Key)
    requires n in s.procs && s.procs[n] == Unbind(pid, k) && pid in s.db.principals
    ensures pid !in Apply(policy, s, Advance(n, c)).db.principals <==>
      pid !in s.db.referenced && forall j :: j in s.db.bindings && s.db.bindings[j] == pid ==> j == k
  {
    var bindings := if k in s.db.bindings && s.db.bindings[k] == pid then s.db.bindings - {k} else s.db.bindings;
    if j :| j in s.db.bindings && s.db.bindings[j] == pid && j != k {
      assert j in bindings && bindings[j] == pid;
    }
  }

  /** So a linked Principal survives every compensation of the link while one other binding of it stands. */
  lemma LinkedSurvives(policy: Policy, actions: seq<Action>, i: nat, j: nat, a: Key, pid: string)
    requires i <= j <= |actions| && BoundThroughout(policy, actions, i, j, a)
    requires Reached(policy, actions[..i]).db.bindings[a] == pid
    ensures pid in Reached(policy, actions[..j]).db.principals
  {
    hide Reached;
    BindingsDoNotMove(policy, actions, i, j, a);
    ReachedConsistent(policy, actions[..j]);
  }

  /** The interleaving that loses it: its other binding is undone between the link and the compensation. */
  lemma BothUndone(policy: Policy, s: Sys, m: nat, n: nat, c: Principal, pid: string, a: Key, k: Key)
    requires m in s.procs && n in s.procs && m != n && s.procs[m] == Unbind(pid, a) && s.procs[n] == Unbind(pid, k) && a != k
    requires pid in s.db.principals && pid !in s.db.referenced && a in s.db.bindings && k in s.db.bindings
    requires forall j :: j in s.db.bindings && s.db.bindings[j] == pid <==> j == a || j == k
    ensures pid in Apply(policy, s, Advance(m, c)).db.principals
    ensures pid !in Apply(policy, Apply(policy, s, Advance(m, c)), Advance(n, c)).db.principals
  {
    var t := Apply(policy, s, Advance(m, c));
    assert (s.db.bindings - {a})[k] == pid;
    UnbindDeletesIff(policy, s, m, c, pid, a);
    assert t.db.bindings == s.db.bindings - {a} && t.procs[n] == Unbind(pid, k);
    UnbindDeletesIff(policy, t, n, c, pid, k);
  }
}
