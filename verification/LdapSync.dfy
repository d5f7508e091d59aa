/**
 Directory-to-YCQL reconciliation: the differences between LDAP and the database are turned into
 a list of role statements, and a strict interpreter, which fails wherever a statement could be
 refused, says what executing them does.
 */
module LdapSync {
  import opened Common

  type Name = string

  /** Role names and the roles each is a member of. */
  type Roles = map<Name, set<Name>>

  /** The two dictionaries read from system_auth: roles that can log in, and the others. */
  datatype Db = Db(login: Roles, group: Roles)

  datatype Stmt =
    | CreateLogin(role: Name)              // CREATE ROLE IF NOT EXISTS ... LOGIN = true
    | CreateGroup(role: Name)              // CREATE ROLE ... LOGIN = false
    | Grant(role: Name, to: Name)
    | Revoke(role: Name, from: Name)
    | Drop(role: Name)                     // DROP ROLE IF EXISTS

  datatype Outcome<T> = Done(value: T) | Refused

  // ---------- Executing statements ----------

  predicate Exists(db: Db, r: Name) { r in db.login || r in db.group }

  function Forget(roles: Roles, r: Name): Roles {
    map x | x in roles && x != r :: roles[x] - {r}
  }

  function Execute(db: Db, s: Stmt): Outcome<Db> {
    match s
    case CreateLogin(r) => Done(if Exists(db, r) then db else db.(login := db.login[r := {}]))
    case CreateGroup(r) => if Exists(db, r) then Refused else Done(db.(group := db.group[r := {}]))
    case Grant(g, u) =>
      if !Exists(db, g) || g == u then Refused
      else if u in db.login && g !in db.login[u] then Done(db.(login := db.login[u := db.login[u] + {g}]))
      else Refused
    case Revoke(g, u) =>
      if Exists(db, g) && u in db.login && g in db.login[u] then Done(db.(login := db.login[u := db.login[u] - {g}]))
      else Refused
    case Drop(r) => Done(Db(Forget(db.login, r), Forget(db.group, r)))
  }

  /** What the database refuses: creating a group that exists, and granting or revoking what is pointless or unknown. */
  lemma RefusedWhen(db: Db, s: Stmt)
    ensures Execute(db, s).Refused? <==> match s
      case CreateLogin(_) => false
      case CreateGroup(r) => r in db.login || r in db.group
      case Grant(g, u) => (g !in db.login && g !in db.group) || g == u || u !in db.login || g in db.login[u]
      case Revoke(g, u) => (g !in db.login && g !in db.group) || u !in db.login || g !in db.login[u]
      case Drop(_) => false
  {}

  /** What else it does: one role appears or goes, with its memberships, or one membership does. */
  lemma ExecutedMeans(db: Db, s: Stmt)
    requires Execute(db, s).Done?
    ensures var next := Execute(db, s).value;
      match s
      case CreateLogin(r) => next.group == db.group
        && (if r in db.login || r in db.group then next.login == db.login
            else next.login.Keys == db.login.Keys + {r} && next.login[r] == {} && forall x | x in db.login :: next.login[x] == db.login[x])
      case CreateGroup(r) => next.login == db.login
        && next.group.Keys == db.group.Keys + {r} && next.group[r] == {} && forall x | x in db.group :: next.group[x] == db.group[x]
      case Grant(g, u) => next.group == db.group && next.login.Keys == db.login.Keys
        && forall x | x in db.login :: next.login[x] == if x == u then db.login[x] + {g} else db.login[x]
      case Revoke(g, u) => next.group == db.group && next.login.Keys == db.login.Keys
        && forall x | x in db.login :: next.login[x] == if x == u then db.login[x] - {g} else db.login[x]
      case Drop(r) =>
        && next.login.Keys == db.login.Keys - {r} && (forall x | x in next.login :: next.login[x] == db.login[x] - {r})
        && next.group.Keys == db.group.Keys - {r} && (forall x | x in next.group :: next.group[x] == db.group[x] - {r})
  {}

  /** Statements one after the other; the first refusal ends it. */
  function Run(db: Db, stmts: seq<Stmt>): Outcome<Db> {
    if stmts == [] then Done(db)
    else
      var before := Run(db, stmts[..|stmts| - 1]);
      if before.Refused? then Refused else Execute(before.value, stmts[|stmts| - 1])
  }

  lemma RunOneMore(db: Db, stmts: seq<Stmt>, s: Stmt)
    ensures Run(db, stmts + [s]) == var before := Run(db, stmts);
      if before.Refused? then Refused else Execute(before.value, s)
  {
    assert (stmts + [s])[..|stmts|] == stmts;
  }

  class Session {
    var db: Db

    constructor (db: Db)
      ensures this.db == db
    {
      this.db := db;
    }

    /** Sends the list; stops at the first statement the database refuses, keeping what came before. */
    method ApplyChanges(stmts: seq<Stmt>) returns (ok: bool, done: nat)
      modifies this
      ensures done <= |stmts| && Run(old(db), stmts[..done]) == Done(db)
      ensures ok <==> done == |stmts|
      ensures ok <==> Run(old(db), stmts).Done?
    {
      done := 0;
      while done < |stmts|
        invariant done <= |stmts| && Run(old(db), stmts[..done]) == Done(db)
      {
        RunOneMore(old(db), stmts[..done], stmts[done]);
        assert stmts[..done] + [stmts[done]] == stmts[..done + 1];
        var r := Execute(db, stmts[done]);
        if r.Refused? {
          RefusedStays(old(db), stmts, done + 1);
          return false, done;
        }
        db := r.value;
        done := done + 1;
      }
      assert stmts[..done] == stmts;
      ok := true;
    }
  }

  lemma {:induction false} RefusedStays(db: Db, stmts: seq<Stmt>, k: nat)
    requires k <= |stmts| && Run(db, stmts[..k]).Refused?
    ensures Run(db, stmts).Refused?
    decreases |stmts|
  {
    if k == |stmts| {
      assert stmts[..k] == stmts;
    } else {
      assert stmts[..|stmts| - 1][..k] == stmts[..k];
      RefusedStays(db, stmts[..|stmts| - 1], k);
    }
  }

  // ---------- Differences ----------

  type Entry = (Name, seq<Name>)

  /** What the comparison reports; each part in any order. */
  datatype Diff = Diff(added: seq<Entry>, removed: seq<Name>, gained: seq<Entry>, lost: seq<Entry>)

  /** One entry per user, each list without repeats, together exactly the non-empty sets of `want`. */
  ghost predicate Lists(entries: seq<Entry>, want: Roles) {
    && (forall i, j | 0 <= i < j < |entries| :: entries[i].0 != entries[j].0)
    && (forall i | 0 <= i < |entries| :: Distinct(entries[i].1) && entries[i].0 in want
          && SetOf(entries[i].1) == want[entries[i].0])
    && (forall u | u in want :: exists i :: 0 <= i < |entries| && entries[i].0 == u)
  }

  /** Users on both sides whose `more` side has roles the other lacks. */
  function Surplus(more: Roles, less: Roles): Roles {
    map u | u in more && u in less && more[u] - less[u] != {} :: more[u] - less[u]
  }

  /** Users of LDAP with no login role yet. */
  function Missing(ldap: Roles, login: Roles): Roles {
    map u | u in ldap && u !in login :: ldap[u]
  }

  /** diff describes how the database's login roles differ from LDAP. */
  ghost predicate IsDiff(db: Db, ldap: Roles, diff: Diff) {
    && Lists(diff.added, Missing(ldap, db.login))
    && Distinct(diff.removed) && SetOf(diff.removed) == db.login.Keys - ldap.Keys
    && Lists(diff.gained, Surplus(ldap, db.login))
    && Lists(diff.lost, Surplus(db.login, ldap))
  }

  // ---------- What a synchronisation is for ----------

  /** Memberships point at existing roles that cannot log in; no role is of both kinds. */
  ghost predicate ValidDb(db: Db) {
    && db.login.Keys !! db.group.Keys
    && (forall u | u in db.login :: db.login[u] <= db.group.Keys)
    && (forall g | g in db.group :: db.group[g] <= db.group.Keys)
  }

  /** No name is used both for a user (of the database at the outset, or of LDAP) and for a group. */
  ghost predicate Compatible(db: Db, ldap: Roles, users: set<Name>) {
    && db.login.Keys <= users + ldap.Keys
    && users + ldap.Keys !! db.group.Keys
    && (forall u | u in ldap :: ldap[u] !! users + ldap.Keys)
  }

  function Held(db: Db, u: Name): set<Name> {
    if u in db.login then db.login[u] else {}
  }

  /** Exactly the LDAP users, each with its LDAP groups and the member-mapped roles it already held. */
  function Target(db: Db, ldap: Roles, mapped: set<Name>): Roles {
    map u | u in ldap :: ldap[u] + Held(db, u) * mapped
  }

  /** The statement is one the differences call for, whatever came before it. */
  ghost predicate Warranted(ldap: Roles, users: set<Name>, mapped: set<Name>, s: Stmt) {
    match s
    case CreateLogin(u) => u in ldap
    case CreateGroup(g) => exists u :: u in ldap && g in ldap[u]
    case Grant(g, u) => u in ldap && g in ldap[u]
    case Revoke(g, u) => u in ldap && g !in ldap[u] && g !in mapped
    case Drop(u) => u in users && u !in ldap
  }

  // ---------- Folds over a diff ----------

  type Patch = (set<Name>, set<Name>) -> set<Name>

  function Replace(): Patch { (had: set<Name>, gs: set<Name>) => gs }

  function Union(): Patch { (had: set<Name>, gs: set<Name>) => had + gs }

  function Minus(mapped: set<Name>): Patch { (had: set<Name>, gs: set<Name>) => had - (gs - mapped) }

  /** Each entry's user gets its set changed by f. */
  function Patched(roles: Roles, entries: seq<Entry>, f: Patch): Roles {
    if entries == [] then roles
    else
      var r, e := Patched(roles, entries[..|entries| - 1], f), entries[|entries| - 1];
      r[e.0 := f(if e.0 in r then r[e.0] else {}, SetOf(e.1))]
  }

  lemma {:induction false} PatchedElse(roles: Roles, entries: seq<Entry>, f: Patch, u: Name)
    requires forall j | 0 <= j < |entries| :: entries[j].0 != u
    ensures u in Patched(roles, entries, f) <==> u in roles
    ensures u in roles ==> Patched(roles, entries, f)[u] == roles[u]
  {
    if entries != [] {
      PatchedElse(roles, entries[..|entries| - 1], f, u);
    }
  }

  lemma {:induction false} PatchedAt(roles: Roles, entries: seq<Entry>, f: Patch, j: nat)
    requires forall i, k | 0 <= i < k < |entries| :: entries[i].0 != entries[k].0
    requires j < |entries|
    ensures entries[j].0 in Patched(roles, entries, f)
    ensures Patched(roles, entries, f)[entries[j].0]
      == f(if entries[j].0 in roles then roles[entries[j].0] else {}, SetOf(entries[j].1))
  {
    var m := |entries| - 1;
    if j == m {
      PatchedElse(roles, entries[..m], f, entries[j].0);
    } else {
      PatchedAt(roles, entries[..m], f, j);
    }
  }

  /** With one entry per wanted user, each user is patched by exactly what is wanted for it. */
  lemma PatchedBy(roles: Roles, entries: seq<Entry>, f: Patch, want: Roles, u: Name)
    requires Lists(entries, want)
    ensures var after := Patched(roles, entries, f);
      if u in want then u in after && after[u] == f(if u in roles then roles[u] else {}, want[u])
      else (u in after <==> u in roles) && (u in roles ==> after[u] == roles[u])
  {
    if u in want {
      var i :| 0 <= i < |entries| && entries[i].0 == u;
      PatchedAt(roles, entries, f, i);
    } else {
      PatchedElse(roles, entries, f, u);
    }
  }

  /** All four parts of a diff, applied in the order the statements are generated. */
  function AllPatched(db: Db, diff: Diff, mapped: set<Name>): Roles {
    Patched(Patched(Patched(db.login, diff.added, Replace()) - SetOf(diff.removed), diff.gained, Union()),
            diff.lost, Minus(mapped))
  }

  lemma AllPatchedIsTarget(db: Db, ldap: Roles, diff: Diff, mapped: set<Name>)
    requires IsDiff(db, ldap, diff)
    ensures AllPatched(db, diff, mapped) == Target(db, ldap, mapped)
  {
    hide Patched, Lists;
    var a := Patched(db.login, diff.added, Replace());
    var b := a - SetOf(diff.removed);
    var c := Patched(b, diff.gained, Union());
    var d := Patched(c, diff.lost, Minus(mapped));
    var t := Target(db, ldap, mapped);
    forall u ensures (u in d <==> u in t) && (u in d ==> d[u] == t[u]) {
      PatchedBy(db.login, diff.added, Replace(), Missing(ldap, db.login), u);
      PatchedBy(b, diff.gained, Union(), Surplus(ldap, db.login), u);
      PatchedBy(c, diff.lost, Minus(mapped), Surplus(db.login, ldap), u);
      if u in ldap && u in db.login {
        assert u in b && b[u] == db.login[u];
        assert c[u] == db.login[u] + (ldap[u] - db.login[u]);
        assert d[u] == c[u] - ((db.login[u] - ldap[u]) - mapped);
        assert d[u] == ldap[u] + db.login[u] * mapped;
      }
    }
  }

  // ---------- Generating the statements ----------

  /** The statements so far can be executed, lead from db to cur, and are all called for. */
  ghost predicate Leads(db: Db, ldap: Roles, mapped: set<Name>, stmts: seq<Stmt>, cur: Db) {
    && Run(db, stmts) == Done(cur)
    && ValidDb(cur) && Compatible(cur, ldap, db.login.Keys)
    && (forall i | 0 <= i < |stmts| :: Warranted(ldap, db.login.Keys, mapped, stmts[i]))
  }

  lemma LeadsOneMore(db: Db, ldap: Roles, mapped: set<Name>, stmts: seq<Stmt>, cur: Db, s: Stmt)
    requires Leads(db, ldap, mapped, stmts, cur) && Warranted(ldap, db.login.Keys, mapped, s)
    requires Execute(cur, s).Done?
    ensures Leads(db, ldap, mapped, stmts + [s], Execute(cur, s).value)
  {
    hide Run, Execute, Warranted, ValidDb, Compatible;
    RunOneMore(db, stmts, s);
    WarrantedKeeps(cur, ldap, db.login.Keys, mapped, s);
  }

  /** A warranted statement keeps the database well formed and, whoever it touches, the goal itself. */
  lemma WarrantedKeeps(db: Db, ldap: Roles, users: set<Name>, mapped: set<Name>, s: Stmt)
    requires ValidDb(db) && Compatible(db, ldap, users) && Warranted(ldap, users, mapped, s) && Execute(db, s).Done?
    ensures var next := Execute(db, s).value;
      && ValidDb(next) && Compatible(next, ldap, users)
      && Target(next, ldap, mapped) == Target(db, ldap, mapped)
  {
    var next := Execute(db, s).value;
    forall u | u in ldap ensures ldap[u] + Held(next, u) * mapped == ldap[u] + Held(db, u) * mapped {
      match s
      case Grant(g, v) =>
        if u == v {
          assert Held(next, u) * mapped <= Held(db, u) * mapped + {g};
        }
      case Revoke(g, v) =>
        if u == v {
          assert Held(next, u) * mapped == Held(db, u) * mapped;
        }
      case Drop(v) =>
        if u in db.login {
          assert v !in db.login[u];
          assert db.login[u] - {v} == db.login[u];
        }
      case _ =>
    }
  }

  /** Creating the groups still missing and granting them, for one user. */
  method GrantEach(u: Name, groups: seq<Name>, nologin0: set<Name>, stmts0: seq<Stmt>,
                   ghost db: Db, ghost ldap: Roles, ghost mapped: set<Name>, ghost cur0: Db)
    returns (nologin: set<Name>, stmts: seq<Stmt>, ghost cur: Db)
    requires Leads(db, ldap, mapped, stmts0, cur0) && cur0.group.Keys == nologin0
    requires u in ldap && u in cur0.login && Distinct(groups)
    requires SetOf(groups) <= ldap[u] - cur0.login[u]
    ensures Leads(db, ldap, mapped, stmts, cur) && cur.group.Keys == nologin
    ensures cur.login == cur0.login[u := cur0.login[u] + SetOf(groups)]
    ensures stmts0 <= stmts && (stmts == stmts0 <==> groups == [])
  {
    hide Run, Warranted, ValidDb;
    nologin, stmts, cur := nologin0, stmts0, cur0;
    assert SetOf(groups[..0]) == {} && cur0.login[u] + {} == cur0.login[u];
    assert cur0.login[u := cur0.login[u]] == cur0.login;
    for j := 0 to |groups|
      invariant Leads(db, ldap, mapped, stmts, cur) && cur.group.Keys == nologin
      invariant u in cur.login && cur.login == cur0.login[u := cur0.login[u] + SetOf(groups[..j])]
      invariant stmts0 <= stmts && (stmts == stmts0 <==> j == 0)
    {
      var g := groups[j];
      assert g in SetOf(groups);
      SetOfOneMore(groups, j);
      if g !in nologin {
        GroupStep(db, ldap, mapped, stmts, cur, u, g);
        cur := Execute(cur, CreateGroup(g)).value;
        stmts := stmts + [CreateGroup(g)];
        nologin := nologin + {g};
      }
      GrantStep(db, ldap, mapped, stmts, cur, u, g);
      assert (cur0.login[u] + SetOf(groups[..j])) + {g} == cur0.login[u] + SetOf(groups[..j + 1]);
      cur := Execute(cur, Grant(g, u)).value;
      stmts := stmts + [Grant(g, u)];
    }
    assert groups[..|groups|] == groups;
  }

  lemma SetOfOneMore(xs: seq<Name>, j: nat)
    requires j < |xs| && Distinct(xs)
    ensures SetOf(xs[..j + 1]) == SetOf(xs[..j]) + {xs[j]} && xs[j] !in SetOf(xs[..j])
  {
    assert xs[..j + 1] == xs[..j] + [xs[j]];
  }

  lemma GroupStep(db: Db, ldap: Roles, mapped: set<Name>, stmts: seq<Stmt>, cur: Db, u: Name, g: Name)
    requires Leads(db, ldap, mapped, stmts, cur) && u in ldap && g in ldap[u] && g !in cur.group
    ensures Execute(cur, CreateGroup(g)) == Done(cur.(group := cur.group[g := {}]))
    ensures Leads(db, ldap, mapped, stmts + [CreateGroup(g)], cur.(group := cur.group[g := {}]))
  {
    hide Run;
    LeadsOneMore(db, ldap, mapped, stmts, cur, CreateGroup(g));
  }

  lemma GrantStep(db: Db, ldap: Roles, mapped: set<Name>, stmts: seq<Stmt>, cur: Db, u: Name, g: Name)
    requires Leads(db, ldap, mapped, stmts, cur) && u in ldap && g in ldap[u] && g in cur.group
    requires u in cur.login && g !in cur.login[u]
    ensures Execute(cur, Grant(g, u)) == Done(cur.(login := cur.login[u := cur.login[u] + {g}]))
    ensures Leads(db, ldap, mapped, stmts + [Grant(g, u)], cur.(login := cur.login[u := cur.login[u] + {g}]))
  {
    hide Run;
    LeadsOneMore(db, ldap, mapped, stmts, cur, Grant(g, u));
  }

  lemma UserStep(db: Db, ldap: Roles, mapped: set<Name>, stmts: seq<Stmt>, cur: Db, u: Name)
    requires Leads(db, ldap, mapped, stmts, cur) && u in ldap && u !in cur.login
    ensures Execute(cur, CreateLogin(u)) == Done(cur.(login := cur.login[u := {}]))
    ensures Leads(db, ldap, mapped, stmts + [CreateLogin(u)], cur.(login := cur.login[u := {}]))
  {
    hide Run;
    LeadsOneMore(db, ldap, mapped, stmts, cur, CreateLogin(u));
  }

  lemma RevokeStep(db: Db, ldap: Roles, mapped: set<Name>, stmts: seq<Stmt>, cur: Db, u: Name, g: Name)
    requires Leads(db, ldap, mapped, stmts, cur) && u in ldap && g !in ldap[u] && g !in mapped
    requires u in cur.login && g in cur.login[u]
    ensures Execute(cur, Revoke(g, u)) == Done(cur.(login := cur.login[u := cur.login[u] - {g}]))
    ensures Leads(db, ldap, mapped, stmts + [Revoke(g, u)], cur.(login := cur.login[u := cur.login[u] - {g}]))
  {
    hide Run;
    LeadsOneMore(db, ldap, mapped, stmts, cur, Revoke(g, u));
  }

  lemma DropStep(db: Db, ldap: Roles, mapped: set<Name>, stmts: seq<Stmt>, cur: Db, u: Name)
    requires Leads(db, ldap, mapped, stmts, cur) && u !in ldap && u in db.login
    ensures u !in cur.group && Execute(cur, Drop(u)) == Done(cur.(login := cur.login - {u}))
    ensures Leads(db, ldap, mapped, stmts + [Drop(u)], cur.(login := cur.login - {u}))
  {
    hide Run;
    forall x | x in cur.login ensures cur.login[x] - {u} == cur.login[x] {
      assert u !in cur.login[x];
    }
    forall x | x in cur.group ensures x != u && cur.group[x] - {u} == cur.group[x] {
      assert u !in cur.group[x];
    }
    assert Forget(cur.login, u) == cur.login - {u};
    assert Forget(cur.group, u) == cur.group;
    LeadsOneMore(db, ldap, mapped, stmts, cur, Drop(u));
  }

  /** No statement is called for: nothing was added, removed or gained, and only mapped roles are surplus. */
  ghost predicate NothingToDo(diff: Diff, mapped: set<Name>) {
    diff.added == [] && diff.removed == [] && diff.gained == []
    && forall i | 0 <= i < |diff.lost| :: SetOf(diff.lost[i].1) <= mapped
  }

  /** What the generator requires of its inputs: no-login roles as read, and a diff of that very database. */
  ghost predicate SyncInput(db: Db, ldap: Roles, diff: Diff, nologin: set<Name>) {
    && ValidDb(db) && Compatible(db, ldap, db.login.Keys) && IsDiff(db, ldap, diff) && nologin == db.group.Keys
  }

  method RevokeEach(u: Name, groups: seq<Name>, mapped: set<Name>, stmts0: seq<Stmt>,
                    ghost db: Db, ghost ldap: Roles, ghost cur0: Db)
    returns (stmts: seq<Stmt>, ghost cur: Db)
    requires Leads(db, ldap, mapped, stmts0, cur0)
    requires u in ldap && u in cur0.login && Distinct(groups)
    requires SetOf(groups) <= cur0.login[u] - ldap[u]
    ensures Leads(db, ldap, mapped, stmts, cur)
    ensures cur.login == cur0.login[u := cur0.login[u] - (SetOf(groups) - mapped)]
    ensures stmts0 <= stmts && (stmts == stmts0 <==> SetOf(groups) <= mapped)
  {
    hide Run, Warranted, ValidDb;
    stmts, cur := stmts0, cur0;
    assert SetOf(groups[..0]) == {} && cur0.login[u] - ({} - mapped) == cur0.login[u];
    assert cur0.login[u := cur0.login[u]] == cur0.login;
    for j := 0 to |groups|
      invariant Leads(db, ldap, mapped, stmts, cur)
      invariant u in cur.login && cur.login == cur0.login[u := cur0.login[u] - (SetOf(groups[..j]) - mapped)]
      invariant stmts0 <= stmts && (stmts == stmts0 <==> SetOf(groups[..j]) <= mapped)
    {
      var g := groups[j];
      assert g in SetOf(groups);
      SetOfOneMore(groups, j);
      var held := cur0.login[u];
      if g in mapped {
        assert SetOf(groups[..j + 1]) - mapped == SetOf(groups[..j]) - mapped;
        continue;
      }
      assert (held - (SetOf(groups[..j]) - mapped)) - {g} == held - (SetOf(groups[..j + 1]) - mapped);
      RevokeStep(db, ldap, mapped, stmts, cur, u, g);
      cur := Execute(cur, Revoke(g, u)).value;
      stmts := stmts + [Revoke(g, u)];
    }
    assert groups[..|groups|] == groups;
  }

  lemma PrefixEntries(roles: Roles, entries: seq<Entry>, f: Patch, want: Roles, i: nat)
    requires Lists(entries, want) && i < |entries|
    ensures entries[..i + 1][..i] == entries[..i] && entries[..i + 1][i] == entries[i]
    ensures var (u, r) := (entries[i].0, Patched(roles, entries[..i], f));
      && (u in r <==> u in roles) && (u in roles ==> r[u] == roles[u])
      && Patched(roles, entries[..i + 1], f) == r[u := f(if u in r then r[u] else {}, SetOf(entries[i].1))]
  {
    forall j | 0 <= j < i ensures entries[..i][j].0 != entries[i].0 {
    }
    PatchedElse(roles, entries[..i], f, entries[i].0);
  }

  /** A user present on both sides still has its old memberships when the changed ones are processed. */
  lemma KeptSoFar(db: Db, ldap: Roles, diff: Diff, u: Name)
    requires IsDiff(db, ldap, diff) && u in ldap && u in db.login
    ensures var b := Patched(db.login, diff.added, Replace()) - SetOf(diff.removed);
      && u in b && b[u] == db.login[u]
      && u in Patched(b, diff.gained, Union()) && db.login[u] <= Patched(b, diff.gained, Union())[u]
  {
    hide Patched, Lists;
    PatchedBy(db.login, diff.added, Replace(), Missing(ldap, db.login), u);
    var b := Patched(db.login, diff.added, Replace()) - SetOf(diff.removed);
    PatchedBy(b, diff.gained, Union(), Surplus(ldap, db.login), u);
  }

  method AddNewUsers(diff: Diff, nologin0: set<Name>, ghost db: Db, ghost ldap: Roles, ghost mapped: set<Name>)
    returns (nologin: set<Name>, stmts: seq<Stmt>, ghost cur: Db)
    requires SyncInput(db, ldap, diff, nologin0)
    ensures Leads(db, ldap, mapped, stmts, cur) && cur.group.Keys == nologin
    ensures cur.login == Patched(db.login, diff.added, Replace())
    ensures stmts == [] <==> diff.added == []
  {
    hide Run, Warranted, ValidDb, Patched, Compatible;
    nologin, stmts, cur := nologin0, [], db;
    NoPatch(db.login, Replace());
    Begin(db, ldap, mapped);
    ghost var want := Missing(ldap, db.login);
    for i := 0 to |diff.added|
      invariant Leads(db, ldap, mapped, stmts, cur) && cur.group.Keys == nologin
      invariant cur.login == Patched(db.login, diff.added[..i], Replace())
      invariant stmts == [] <==> i == 0
    {
      var (u, groups) := diff.added[i];
      PrefixEntries(db.login, diff.added, Replace(), want, i);
      UserStep(db, ldap, mapped, stmts, cur, u);
      ghost var had := cur.login;
      cur := Execute(cur, CreateLogin(u)).value;
      stmts := stmts + [CreateLogin(u)];
      assert SetOf(groups) == ldap[u] && ldap[u] - {} == ldap[u];
      nologin, stmts, cur := GrantEach(u, groups, nologin, stmts, db, ldap, mapped, cur);
      assert {} + SetOf(groups) == SetOf(groups);
      assert had[u := {}][u := SetOf(groups)] == had[u := SetOf(groups)];
    }
    assert diff.added[..|diff.added|] == diff.added;
  }

  lemma NoPatch(roles: Roles, f: Patch)
    ensures Patched(roles, [], f) == roles
  {
  }

  lemma Begin(db: Db, ldap: Roles, mapped: set<Name>)
    requires ValidDb(db) && Compatible(db, ldap, db.login.Keys)
    ensures Leads(db, ldap, mapped, [], db)
  {
  }

  method DropOldUsers(diff: Diff, nologin: set<Name>, stmts0: seq<Stmt>,
                      ghost db: Db, ghost ldap: Roles, ghost mapped: set<Name>, ghost cur0: Db)
    returns (stmts: seq<Stmt>, ghost cur: Db)
    requires IsDiff(db, ldap, diff) && Leads(db, ldap, mapped, stmts0, cur0) && cur0.group.Keys == nologin
    ensures Leads(db, ldap, mapped, stmts, cur) && cur.group.Keys == nologin
    ensures cur.login == cur0.login - SetOf(diff.removed)
    ensures stmts0 <= stmts && (stmts == stmts0 <==> diff.removed == [])
  {
    hide Run, Warranted, ValidDb, Lists, Compatible;
    stmts, cur := stmts0, cur0;
    assert SetOf(diff.removed[..0]) == {} && cur0.login - {} == cur0.login;
    for i := 0 to |diff.removed|
      invariant Leads(db, ldap, mapped, stmts, cur) && cur.group.Keys == nologin
      invariant cur.login == cur0.login - SetOf(diff.removed[..i])
      invariant stmts0 <= stmts && (stmts == stmts0 <==> i == 0)
    {
      var u := diff.removed[i];
      assert u in SetOf(diff.removed);
      SetOfOneMore(diff.removed, i);
      DropStep(db, ldap, mapped, stmts, cur, u);
      if u in nologin { continue; }
      assert (cur0.login - SetOf(diff.removed[..i])) - {u} == cur0.login - SetOf(diff.removed[..i + 1]);
      cur := Execute(cur, Drop(u)).value;
      stmts := stmts + [Drop(u)];
    }
    assert diff.removed[..|diff.removed|] == diff.removed;
  }

  method GrantGained(diff: Diff, nologin0: set<Name>, stmts0: seq<Stmt>,
                     ghost db: Db, ghost ldap: Roles, ghost mapped: set<Name>, ghost cur0: Db)
    returns (stmts: seq<Stmt>, ghost cur: Db)
    requires IsDiff(db, ldap, diff) && Leads(db, ldap, mapped, stmts0, cur0) && cur0.group.Keys == nologin0
    requires cur0.login == Patched(db.login, diff.added, Replace()) - SetOf(diff.removed)
    ensures Leads(db, ldap, mapped, stmts, cur)
    ensures cur.login == Patched(cur0.login, diff.gained, Union())
    ensures stmts0 <= stmts && (stmts == stmts0 <==> diff.gained == [])
  {
    hide Run, Warranted, ValidDb, Patched, Compatible;
    var nologin := nologin0;
    stmts, cur := stmts0, cur0;
    NoPatch(cur0.login, Union());
    for i := 0 to |diff.gained|
      invariant Leads(db, ldap, mapped, stmts, cur) && cur.group.Keys == nologin
      invariant cur.login == Patched(cur0.login, diff.gained[..i], Union())
      invariant stmts0 <= stmts && (stmts == stmts0 <==> i == 0)
    {
      var (u, groups) := diff.gained[i];
      PrefixEntries(cur0.login, diff.gained, Union(), Surplus(ldap, db.login), i);
      KeptSoFar(db, ldap, diff, u);
      assert groups != [];
      nologin, stmts, cur := GrantEach(u, groups, nologin, stmts, db, ldap, mapped, cur);
    }
    assert diff.gained[..|diff.gained|] == diff.gained;
  }

  method RevokeLost(diff: Diff, mapped: set<Name>, stmts0: seq<Stmt>, ghost db: Db, ghost ldap: Roles, ghost cur0: Db)
    returns (stmts: seq<Stmt>, ghost cur: Db)
    requires IsDiff(db, ldap, diff) && Leads(db, ldap, mapped, stmts0, cur0)
    requires cur0.login
      == Patched(Patched(db.login, diff.added, Replace()) - SetOf(diff.removed), diff.gained, Union())
    ensures Leads(db, ldap, mapped, stmts, cur)
    ensures cur.login == Patched(cur0.login, diff.lost, Minus(mapped))
    ensures stmts0 <= stmts && (stmts == stmts0 <==> forall i | 0 <= i < |diff.lost| :: SetOf(diff.lost[i].1) <= mapped)
  {
    hide Run, Warranted, ValidDb, Patched, Compatible;
    stmts, cur := stmts0, cur0;
    NoPatch(cur0.login, Minus(mapped));
    for i := 0 to |diff.lost|
      invariant Leads(db, ldap, mapped, stmts, cur)
      invariant cur.login == Patched(cur0.login, diff.lost[..i], Minus(mapped))
      invariant stmts0 <= stmts && (stmts == stmts0 <==> forall j | 0 <= j < i :: SetOf(diff.lost[j].1) <= mapped)
    {
      var (u, groups) := diff.lost[i];
      PrefixEntries(cur0.login, diff.lost, Minus(mapped), Surplus(db.login, ldap), i);
      KeptSoFar(db, ldap, diff, u);
      stmts, cur := RevokeEach(u, groups, mapped, stmts, db, ldap, cur);
    }
    assert diff.lost[..|diff.lost|] == diff.lost;
  }

  function MappedRoles(memberMap: seq<(string, Name)>): set<Name> { set m | m in memberMap :: m.1 }

  /** The login roles are the LDAP users, each a member of its LDAP groups and of what it held that the map names. */
  ghost predicate HoldsExactly(db: Db, ldap: Roles, memberMap: seq<(string, Name)>, after: Db) {
    && (forall u :: u in after.login <==> u in ldap)
    && forall u, g | u in ldap && u in after.login :: g in after.login[u]
         <==> g in ldap[u] || (u in db.login && g in db.login[u] && exists k :: 0 <= k < |memberMap| && memberMap[k].1 == g)
  }

  lemma MappedMeans(memberMap: seq<(string, Name)>, g: Name)
    ensures g in MappedRoles(memberMap) <==> exists k :: 0 <= k < |memberMap| && memberMap[k].1 == g
  {
    if k :| 0 <= k < |memberMap| && memberMap[k].1 == g {
      assert memberMap[k] in memberMap;
    }
  }

  lemma TargetMeans(db: Db, ldap: Roles, memberMap: seq<(string, Name)>, after: Db)
    requires after.login == Target(db, ldap, MappedRoles(memberMap))
    ensures HoldsExactly(db, ldap, memberMap, after)
  {
    hide MappedRoles;
    forall g ensures g in MappedRoles(memberMap) <==> exists k :: 0 <= k < |memberMap| && memberMap[k].1 == g {
      MappedMeans(memberMap, g);
    }
  }

  lemma RevokesMean(ldap: Roles, users: set<Name>, memberMap: seq<(string, Name)>, stmts: seq<Stmt>)
    requires forall i | 0 <= i < |stmts| :: Warranted(ldap, users, MappedRoles(memberMap), stmts[i])
    ensures forall g, u | Revoke(g, u) in stmts :: forall k | 0 <= k < |memberMap| :: memberMap[k].1 != g
  {
    hide MappedRoles;
    forall g, u | Revoke(g, u) in stmts ensures forall k | 0 <= k < |memberMap| :: memberMap[k].1 != g {
      MappedMeans(memberMap, g);
    }
  }

  /**
   The generated list executes without a refusal and leaves exactly the target; it is empty exactly
   when the diff calls for nothing; and each of its statements is warranted on its own.
   */
  method ProcessChanges(diff: Diff, nologin: set<Name>, memberMap: seq<(string, Name)>, ghost db: Db, ghost ldap: Roles)
    returns (stmts: seq<Stmt>)
    requires SyncInput(db, ldap, diff, nologin)
    ensures var r := Run(db, stmts);
      r.Done? && r.value.login == Target(db, ldap, MappedRoles(memberMap)) && ValidDb(r.value)
    ensures HoldsExactly(db, ldap, memberMap, Run(db, stmts).value)
    ensures forall g, u | Revoke(g, u) in stmts :: forall k | 0 <= k < |memberMap| :: memberMap[k].1 != g
    ensures stmts == [] <==> NothingToDo(diff, MappedRoles(memberMap))
    ensures forall i | 0 <= i < |stmts| :: Warranted(ldap, db.login.Keys, MappedRoles(memberMap), stmts[i])
  {
    hide Run, Warranted, ValidDb, Patched, Compatible, Target, IsDiff, MappedRoles, HoldsExactly;
    var mapped := MappedRoles(memberMap);
    ghost var cur;
    var nologin1;
    nologin1, stmts, cur := AddNewUsers(diff, nologin, db, ldap, mapped);
    ghost var n := |stmts|;
    stmts, cur := DropOldUsers(diff, nologin1, stmts, db, ldap, mapped, cur);
    stmts, cur := GrantGained(diff, nologin1, stmts, db, ldap, mapped, cur);
    stmts, cur := RevokeLost(diff, mapped, stmts, db, ldap, cur);
    AllPatchedIsTarget(db, ldap, diff, mapped);
    TargetMeans(db, ldap, memberMap, cur);
    RevokesMean(ldap, db.login.Keys, memberMap, stmts);
  }

  // ---------- Main results ----------

  lemma NamesListed(xs: seq<Name>)
    ensures SetOf(xs) == {} ==> xs == []
  {
    if xs != [] {
      assert xs[0] in SetOf(xs);
    }
  }

  lemma ListedIsWanted(entries: seq<Entry>, want: Roles)
    requires Lists(entries, want)
    ensures entries == [] || exists u :: u in want
  {
    if entries != [] {
      assert entries[0].0 in want;
    }
  }

  /** Once the target is reached, the next comparison calls for nothing. */
  lemma SecondRunIsEmpty(before: Db, ldap: Roles, mapped: set<Name>, after: Db, diff: Diff)
    requires after.login == Target(before, ldap, mapped) && IsDiff(after, ldap, diff)
    ensures NothingToDo(diff, mapped)
  {
    forall u | u in ldap ensures ldap[u] - after.login[u] == {} && after.login[u] - ldap[u] <= mapped {
    }
    ListedIsWanted(diff.added, Missing(ldap, after.login));
    ListedIsWanted(diff.gained, Surplus(ldap, after.login));
    NamesListed(diff.removed);
    forall i | 0 <= i < |diff.lost| ensures SetOf(diff.lost[i].1) <= mapped {
      assert diff.lost[i].0 in Surplus(after.login, ldap);
    }
  }

  /** Whenever any prefix of warranted statements has been executed, the goal is still the same one. */
  lemma {:induction false} PrefixKeepsGoal(db: Db, ldap: Roles, mapped: set<Name>, stmts: seq<Stmt>, k: nat)
    requires ValidDb(db) && Compatible(db, ldap, db.login.Keys) && k <= |stmts| && Run(db, stmts[..k]).Done?
    requires forall i | 0 <= i < |stmts| :: Warranted(ldap, db.login.Keys, mapped, stmts[i])
    ensures var mid := Run(db, stmts[..k]).value;
      ValidDb(mid) && Compatible(mid, ldap, db.login.Keys) && Target(mid, ldap, mapped) == Target(db, ldap, mapped)
    decreases k
  {
    hide Warranted, ValidDb, Compatible, Target, Execute;
    if k > 0 {
      assert stmts[..k][..k - 1] == stmts[..k - 1];
      PrefixKeepsGoal(db, ldap, mapped, stmts, k - 1);
      WarrantedKeeps(Run(db, stmts[..k - 1]).value, ldap, db.login.Keys, mapped, stmts[k - 1]);
    }
  }

  /**
   A sync cut off after any number of its statements has refused nothing, and a fresh sync of what the
   database holds by then is after the very login roles the uninterrupted one would have left.
   */
  lemma InterruptionIsHarmless(db: Db, ldap: Roles, mapped: set<Name>, stmts: seq<Stmt>, k: nat)
    requires ValidDb(db) && Compatible(db, ldap, db.login.Keys) && k <= |stmts| && Run(db, stmts).Done?
    requires forall i | 0 <= i < |stmts| :: Warranted(ldap, db.login.Keys, mapped, stmts[i])
    ensures Run(db, stmts[..k]).Done?
    ensures var mid := Run(db, stmts[..k]).value;
      ValidDb(mid) && Compatible(mid, ldap, mid.login.Keys) && Target(mid, ldap, mapped) == Target(db, ldap, mapped)
  {
    hide Warranted, Target, Run;
    if Run(db, stmts[..k]).Refused? {
      RefusedStays(db, stmts, k);
    }
    PrefixKeepsGoal(db, ldap, mapped, stmts, k);
  }
}
