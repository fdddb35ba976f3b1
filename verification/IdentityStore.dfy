/**
 The shared Principal aggregate: the tables `iam_principal` and `iam_principal_identity` with their
 uniqueness and foreign-key constraints.  A transaction either commits a new database or aborts and
 leaves the old one.  `referenced` holds the principals some role binding refers to, which the
 schema does not let anyone delete.
 */
module IdentityStore {
  import opened Strings

  datatype Key = Key(provider: string, issuer: string, subject: string)

  datatype Kind = User | Workload | GroupKind

  datatype Status = Active | Disabled

  datatype Principal = Principal(id: string, kind: Kind, displayName: string, status: Status)

  datatype Db = Db(principals: map<string, Principal>, bindings: map<Key, string>, referenced: set<string>)

  datatype Error = AlreadyBound | Backend | IdentityConflict | StillReferenced | InvalidPrincipal

  datatype Tx<T> = Committed(db: Db, value: T) | Aborted(error: Error)

  /** Foreign keys hold. */
  ghost predicate Consistent(db: Db)
  {
    && (forall k :: k in db.bindings ==> db.bindings[k] in db.principals)
    && db.referenced <= db.principals.Keys
  }

  /** The database after a transaction was attempted. */
  function After<T>(db: Db, tx: Tx<T>): Db
  {
    if tx.Committed? then tx.db else db
  }

  predicate IsBound(bindings: map<Key, string>, pid: string)
  {
    exists k :: k in bindings && bindings[k] == pid
  }

  predicate HasProvider(db: Db, pid: string, provider: string)
  {
    exists k :: k in db.bindings && db.bindings[k] == pid && k.provider == provider
  }

  function FindByIdentity(db: Db, k: Key): Option<Principal>
  {
    if k in db.bindings && db.bindings[k] in db.principals then Some(db.principals[db.bindings[k]]) else None
  }

  function CreateAndBind(db: Db, p: Principal, k: Key): Tx<Principal>
  {
    if p.id in db.principals || k in db.bindings then Aborted(AlreadyBound)
    else Committed(db.(principals := db.principals[p.id := p], bindings := db.bindings[k := p.id]), p)
  }

  function Bind(db: Db, pid: string, k: Key): Tx<Principal>
  {
    if pid !in db.principals then Aborted(Backend)
    else if k in db.bindings then Aborted(AlreadyBound)
    else Committed(db.(bindings := db.bindings[k := pid]), db.principals[pid])
  }

  /** Unbinds the identity from that Principal, then deletes the Principal if nothing is bound to it any more. */
  function Rollback(db: Db, pid: string, k: Key): Tx<()>
  {
    var bindings := if k in db.bindings && db.bindings[k] == pid then db.bindings - {k} else db.bindings;
    if IsBound(bindings, pid) then Committed(db.(bindings := bindings), ())
    else if pid in db.referenced then Aborted(Backend)
    else Committed(db.(principals := db.principals - {pid}, bindings := bindings), ())
  }

  predicate Blank(s: string)
  {
    forall i :: 0 <= i < |s| ==> s[i] in " \t\r\n"
  }

  function Upsert(db: Db, p: Principal): Tx<Principal>
  {
    if Blank(p.id) || Blank(p.displayName) then Aborted(InvalidPrincipal)
    else Committed(db.(principals := db.principals[p.id := p]), p)
  }

  /** Projects a Principal and binds its identity; an identity bound elsewhere aborts both writes. */
  function UpsertWithIdentity(db: Db, p: Principal, pid: string, k: Key): Tx<Principal>
  {
    if Blank(p.id) || Blank(p.displayName) then Aborted(InvalidPrincipal)
    else
      var principals := db.principals[p.id := p];
      if k in db.bindings then
        if db.bindings[k] == pid then Committed(db.(principals := principals), p) else Aborted(IdentityConflict)
      else if pid !in principals then Aborted(Backend)
      else Committed(db.(principals := principals, bindings := db.bindings[k := pid]), p)
  }

  function UpdateStatus(db: Db, id: string, status: Status): Tx<Option<Principal>>
  {
    if id in db.principals then
      var p := db.principals[id].(status := status);
      Committed(db.(principals := db.principals[id := p]), Some(p))
    else Committed(db, None)
  }

  /** Deleting a Principal deletes its identity bindings with it. */
  function Delete(db: Db, id: string): Tx<bool>
  {
    if id in db.referenced then Aborted(StillReferenced)
    else
      Committed(Db(db.principals - {id}, map k | k in db.bindings && db.bindings[k] != id :: db.bindings[k], db.referenced),
                id in db.principals)
  }

  /** What every transaction keeps: foreign keys hold, and a binding that survives keeps its Principal. */
  ghost predicate Keeps(db: Db, db': Db)
  {
    && Consistent(db')
    && forall k :: k in db.bindings && k in db'.bindings ==> db'.bindings[k] == db.bindings[k]
  }

  lemma CreateKeeps(db: Db, p: Principal, k: Key)
    requires Consistent(db)
    ensures Keeps(db, After(db, CreateAndBind(db, p, k)))
  {
  }

  lemma BindKeeps(db: Db, pid: string, k: Key)
    requires Consistent(db)
    ensures Keeps(db, After(db, Bind(db, pid, k)))
  {
  }

  lemma UpsertKeeps(db: Db, p: Principal, pid: string, k: Key)
    requires Consistent(db)
    ensures Keeps(db, After(db, Upsert(db, p)))
    ensures Keeps(db, After(db, UpsertWithIdentity(db, p, pid, k)))
  {
    hide Blank;
  }

  lemma StatusKeeps(db: Db, pid: string, status: Status)
    requires Consistent(db)
    ensures Keeps(db, After(db, UpdateStatus(db, pid, status)))
  {
  }

  lemma DeleteKeeps(db: Db, pid: string)
    requires Consistent(db)
    ensures Keeps(db, After(db, Delete(db, pid)))
  {
  }

  lemma RollbackKeeps(db: Db, pid: string, k: Key)
    requires Consistent(db)
    ensures Keeps(db, After(db, Rollback(db, pid, k)))
  {
    var bindings := if k in db.bindings && db.bindings[k] == pid then db.bindings - {k} else db.bindings;
    if !IsBound(bindings, pid) {
      assert forall j :: j in bindings ==> bindings[j] != pid;
    }
  }

  /** The transactional repository: each method runs its statements on a working copy and commits at the end. */
  class PrincipalStore {
    var principals: map<string, Principal>
    var bindings: map<Key, string>
    var referenced: set<string>

    ghost function Abs(): Db
      reads this
    {
      Db(principals, bindings, referenced)
    }

    constructor ()
      ensures Abs() == Db(map[], map[], {})
    {
      principals, bindings, referenced := map[], map[], {};
    }

    method FindPrincipalByIdentity(k: Key) returns (r: Option<Principal>)
      ensures r == FindByIdentity(Abs(), k)
    {
      if k in bindings && bindings[k] in principals {
        return Some(principals[bindings[k]]);
      }
      return None;
    }

    method PrincipalHasProvider(pid: string, provider: string) returns (r: bool)
      ensures r == HasProvider(Abs(), pid, provider)
    {
      r := exists k :: k in bindings && bindings[k] == pid && k.provider == provider;
    }

    method CreatePrincipalAndBind(p: Principal, k: Key) returns (r: Tx<Principal>)
      modifies this`principals, this`bindings
      ensures r == CreateAndBind(old(Abs()), p, k) && Abs() == After(old(Abs()), r)
    {
      if p.id in principals {
        return Aborted(AlreadyBound);
      }
      var tx := principals[p.id := p];
      if k in bindings {
        return Aborted(AlreadyBound);
      }
      principals, bindings := tx, bindings[k := p.id];
      return Committed(Db(principals, bindings, referenced), p);
    }

    method BindIdentity(pid: string, k: Key) returns (r: Tx<Principal>)
      modifies this`bindings
      ensures r == Bind(old(Abs()), pid, k) && Abs() == After(old(Abs()), r)
    {
      if pid !in principals {
        return Aborted(Backend);
      }
      var principal := principals[pid];
      if k in bindings {
        return Aborted(AlreadyBound);
      }
      bindings := bindings[k := pid];
      return Committed(Db(principals, bindings, referenced), principal);
    }

    method RollbackIdentityBinding(pid: string, k: Key) returns (r: Tx<()>)
      modifies this`principals, this`bindings
      ensures r == Rollback(old(Abs()), pid, k) && Abs() == After(old(Abs()), r)
    {
      var tx := bindings;
      if k in tx && tx[k] == pid {
        tx := tx - {k};
      }
      if exists j :: j in tx && tx[j] == pid {
        bindings := tx;
        return Committed(Db(principals, tx, referenced), ());
      }
      if pid in referenced {
        return Aborted(Backend);
      }
      principals, bindings := principals - {pid}, tx;
      return Committed(Db(principals, bindings, referenced), ());
    }
  }
}
