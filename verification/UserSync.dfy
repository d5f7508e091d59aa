/**
 Directory-to-YBA reconciliation: the change list the EXTERNAL plugin computes, and the batch
 processor of the user administration script that carries it out.
 */
module UserSync {
  import opened Common

  type Name = string

  /** Accounts and the role of each. */
  type Users = map<Name, Name>

  const SUPER_ADMIN: Name := "SuperAdmin"

  /** A dictionary remembers the order in which its keys came. */
  datatype Dict = Dict(order: seq<Name>, value: Users)

  ghost predicate ValidDict(d: Dict) { Distinct(d.order) && SetOf(d.order) == d.value.Keys }

  function Put(d: Dict, key: Name, v: Name): (r: Dict)
    ensures ValidDict(d) ==> ValidDict(r)
  {
    Dict(if key in d.value then d.order else d.order + [key], d.value[key := v])
  }

  // ---------- Mapping names ----------

  /** One member-map entry: does its pattern occur in a name, its replacement, and the name substituted. */
  datatype Mapping = Mapping(occursIn: string -> bool, replacement: string, substitute: string -> string)

  function Rewrite(m: Mapping, name: string): string {
    if '\\' in m.replacement then m.substitute(name) else m.replacement
  }

  function MapName(mappings: seq<Mapping>, name: string): string {
    if mappings == [] then name
    else if mappings[0].occursIn(name) then Rewrite(mappings[0], name)
    else MapName(mappings[1..], name)
  }

  /** The first mapping whose pattern occurs decides; without one the name stays. */
  lemma {:induction false} FirstMatchDecides(mappings: seq<Mapping>, name: string, i: nat)
    requires i <= |mappings| && forall j | 0 <= j < i :: !mappings[j].occursIn(name)
    requires i < |mappings| ==> mappings[i].occursIn(name)
    ensures MapName(mappings, name) == if i < |mappings| then Rewrite(mappings[i], name) else name
  {
    if i > 0 {
      FirstMatchDecides(mappings[1..], name, i - 1);
    }
  }

  // ---------- What the member map says ----------

  /** low is s with the letters A to Z, and nothing else, made small. */
  ghost predicate Lowered(s: string, low: string) {
    && |low| == |s|
    && forall i | 0 <= i < |s| ::
         if 'A' <= s[i] <= 'Z' then low[i] as int == s[i] as int + 32 else low[i] == s[i]
  }

  /** The first pattern that occurs in the name decides: its replacement, substituted if it has a backslash. */
  ghost predicate MapsTo(mappings: seq<Mapping>, name: string, result: string) {
    if forall m | m in mappings :: !m.occursIn(name) then result == name
    else exists k ::
      && 0 <= k < |mappings| && mappings[k].occursIn(name) && (forall j | 0 <= j < k :: !mappings[j].occursIn(name))
      && result == if exists i :: 0 <= i < |mappings[k].replacement| && mappings[k].replacement[i] == '\\'
                   then mappings[k].substitute(name) else mappings[k].replacement
  }

  /** LDAP user u stands for account e. */
  ghost predicate StandsFor(mappings: seq<Mapping>, u: LdapUser, e: Name) {
    exists low :: Lowered(u.id, low) && MapsTo(mappings, low, e)
  }

  lemma NameIsMapped(mappings: seq<Mapping>, name: string, result: string)
    ensures MapsTo(mappings, name, result) <==> result == MapName(mappings, name)
  {
    var k := FirstOccurring(mappings, name);
    FirstMatchDecides(mappings, name, k);
    assert k < |mappings| ==> mappings[k] in mappings;
  }

  lemma FirstOccurring(mappings: seq<Mapping>, name: string) returns (k: nat)
    ensures k <= |mappings| && (forall j | 0 <= j < k :: !mappings[j].occursIn(name))
    ensures k < |mappings| ==> mappings[k].occursIn(name)
  {
    k := 0;
    while k < |mappings| && !mappings[k].occursIn(name)
      invariant k <= |mappings| && forall j | 0 <= j < k :: !mappings[j].occursIn(name)
    {
      k := k + 1;
    }
  }

  lemma AccountIsMapped(mappings: seq<Mapping>, u: LdapUser, e: Name)
    ensures StandsFor(mappings, u, e) <==> e == Account(mappings, u)
  {
    hide MapsTo, MapName;
    assert Lowered(u.id, Lower(u.id));
    forall low | Lowered(u.id, low) ensures low == Lower(u.id) {
    }
    NameIsMapped(mappings, Lower(u.id), e);
  }

  // ---------- What the change list should hold ----------

  datatype LdapUser = LdapUser(id: string, groups: seq<string>)

  function Lower(s: string): string {
    seq(|s|, i requires 0 <= i < |s| => if 'A' <= s[i] <= 'Z' then ((s[i] as int) + 32) as char else s[i])
  }

  /** The account an LDAP user stands for, and the role that account is created with. */
  function Account(mappings: seq<Mapping>, u: LdapUser): Name { MapName(mappings, Lower(u.id)) }

  function RoleFor(mappings: seq<Mapping>, u: LdapUser): Name
    requires u.groups != []
  {
    MapName(mappings, u.groups[0])
  }

  ghost function Wanted(ldap: seq<LdapUser>, mappings: seq<Mapping>): set<Name> {
    set i | 0 <= i < |ldap| :: Account(mappings, ldap[i])
  }

  ghost predicate LastFor(ldap: seq<LdapUser>, mappings: seq<Mapping>, e: Name, i: nat) {
    i < |ldap| && Account(mappings, ldap[i]) == e && forall j | i < j < |ldap| :: Account(mappings, ldap[j]) != e
  }

  ghost predicate RoleFromLast(ldap: seq<LdapUser>, mappings: seq<Mapping>, e: Name, role: Name) {
    exists i: nat :: LastFor(ldap, mappings, e, i) && ldap[i].groups != [] && role == RoleFor(mappings, ldap[i])
  }

  /** Wanted accounts not present yet, each with the role of the last LDAP user standing for it. */
  ghost predicate AreNew(ldap: seq<LdapUser>, mappings: seq<Mapping>, present: set<Name>, adds: Users) {
    && adds.Keys == Wanted(ldap, mappings) - present
    && forall e | e in adds :: RoleFromLast(ldap, mappings, e, adds[e])
  }

  ghost function Admins(users: Users): set<Name> { set e | e in users && users[e] == SUPER_ADMIN }

  /** Accounts no LDAP user stands for, super admins excepted. */
  ghost function Stale(users: Users, wanted: set<Name>): set<Name> {
    users.Keys - wanted - Admins(users)
  }

  /** Positions of LDAP users without an account: this is what the change counter counts. */
  ghost function Newcomers(ldap: seq<LdapUser>, mappings: seq<Mapping>, present: set<Name>): set<nat> {
    set i: nat | i < |ldap| && Account(mappings, ldap[i]) !in present
  }

  ghost predicate Share(ldap: seq<LdapUser>, mappings: seq<Mapping>, present: set<Name>, i: nat, j: nat)
    requires i < |ldap| && j < |ldap|
  {
    Account(mappings, ldap[i]) == Account(mappings, ldap[j]) && Account(mappings, ldap[i]) !in present
  }

  ghost predicate TwoShareAnAccount(ldap: seq<LdapUser>, mappings: seq<Mapping>, present: set<Name>) {
    exists i, j | 0 <= i < j < |ldap| :: Share(ldap, mappings, present, i, j)
  }

  ghost predicate SomeoneWithoutGroup(ldap: seq<LdapUser>) { exists i | 0 <= i < |ldap| :: ldap[i].groups == [] }

  // ---------- Computing the change list ----------

  datatype ChangeList = ChangeList(adds: Dict, deletes: seq<Name>, count: nat) | IndexError

  lemma OneMoreWanted(ldap: seq<LdapUser>, i: nat, mappings: seq<Mapping>)
    requires i < |ldap|
    ensures Wanted(ldap[..i + 1], mappings) == Wanted(ldap[..i], mappings) + {Account(mappings, ldap[i])}
  {
    hide Account;
    assert ldap[..i + 1] == ldap[..i] + [ldap[i]];
    assert forall j | 0 <= j < i :: Account(mappings, ldap[..i + 1][j]) == Account(mappings, ldap[..i][j]);
    assert Account(mappings, ldap[..i + 1][i]) == Account(mappings, ldap[i]);
  }

  lemma OneMoreNewcomer(ldap: seq<LdapUser>, i: nat, mappings: seq<Mapping>, present: set<Name>)
    requires i < |ldap|
    ensures Newcomers(ldap[..i + 1], mappings, present)
      == Newcomers(ldap[..i], mappings, present) + if Account(mappings, ldap[i]) in present then {} else {i}
  {
    hide Account;
  }

  lemma OneMoreToShare(ldap: seq<LdapUser>, i: nat, mappings: seq<Mapping>, present: set<Name>)
    requires i < |ldap|
    ensures var sharesNow := Account(mappings, ldap[i]) in Wanted(ldap[..i], mappings) - present;
      TwoShareAnAccount(ldap[..i + 1], mappings, present) == (TwoShareAnAccount(ldap[..i], mappings, present) || sharesNow)
  {
    hide Account;
    var was, now, e := ldap[..i], ldap[..i + 1], Account(mappings, ldap[i]);
    assert now == was + [ldap[i]];
    if e !in present && e in Wanted(was, mappings) {
      var j :| 0 <= j < i && Account(mappings, was[j]) == e;
      assert Share(now, mappings, present, j, i);
    }
    if TwoShareAnAccount(was, mappings, present) {
      var j, k :| 0 <= j < k < i && Share(was, mappings, present, j, k);
      assert Share(now, mappings, present, j, k);
    }
    if TwoShareAnAccount(now, mappings, present) {
      var j, k :| 0 <= j < k <= i && Share(now, mappings, present, j, k);
      assert if k < i then Share(was, mappings, present, j, k) else Account(mappings, was[j]) == e;
    }
  }

  lemma RoleCarriesOver(ldap: seq<LdapUser>, i: nat, mappings: seq<Mapping>, e: Name, role: Name)
    requires i < |ldap|
    requires if e == Account(mappings, ldap[i]) then ldap[i].groups != [] && role == RoleFor(mappings, ldap[i])
      else RoleFromLast(ldap[..i], mappings, e, role)
    ensures RoleFromLast(ldap[..i + 1], mappings, e, role)
  {
    hide Account, RoleFor;
    if e == Account(mappings, ldap[i]) {
      assert LastFor(ldap[..i + 1], mappings, e, i);
    } else {
      var j: nat :| LastFor(ldap[..i], mappings, e, j) && ldap[..i][j].groups != [] && role == RoleFor(mappings, ldap[..i][j]);
      assert LastFor(ldap[..i + 1], mappings, e, j);
    }
  }

  lemma RolesCarryOver(ldap: seq<LdapUser>, i: nat, mappings: seq<Mapping>, present: set<Name>, adds: Users)
    requires i < |ldap| && ldap[i].groups != [] && AreNew(ldap[..i], mappings, present, adds)
    ensures var e := Account(mappings, ldap[i]);
      AreNew(ldap[..i + 1], mappings, present, if e in present then adds else adds[e := RoleFor(mappings, ldap[i])])
  {
    hide Account, RoleFor, RoleFromLast, Wanted;
    var e := Account(mappings, ldap[i]);
    var after := if e in present then adds else adds[e := RoleFor(mappings, ldap[i])];
    OneMoreWanted(ldap, i, mappings);
    forall x | x in after ensures RoleFromLast(ldap[..i + 1], mappings, x, after[x]) {
      RoleCarriesOver(ldap, i, mappings, x, after[x]);
    }
  }

  /** The first loop: accounts to create, and how many LDAP users asked for one. */
  method NewAccounts(ldap: seq<LdapUser>, mappings: seq<Mapping>, external: Dict)
    returns (ok: bool, adds: Dict, mapped: set<Name>, count: nat)
    ensures ok <==> !SomeoneWithoutGroup(ldap)
    ensures ok ==> ValidDict(adds) && AreNew(ldap, mappings, external.value.Keys, adds.value)
    ensures ok ==> mapped == Wanted(ldap, mappings)
    ensures ok ==> count == |Newcomers(ldap, mappings, external.value.Keys)| >= |adds.order|
    ensures ok ==> (count == |adds.order| <==> !TwoShareAnAccount(ldap, mappings, external.value.Keys))
  {
    hide AreNew, Wanted, TwoShareAnAccount, Newcomers, Account, RoleFor;
    ok, adds, mapped, count := true, Dict([], map[]), {}, 0;
    ghost var present := external.value.Keys;
    NoUsersYet(mappings, present);
    for i := 0 to |ldap|
      invariant ok && forall j | 0 <= j < i :: ldap[j].groups != []
      invariant ValidDict(adds) && AreNew(ldap[..i], mappings, present, adds.value)
      invariant mapped == Wanted(ldap[..i], mappings) && adds.value.Keys == mapped - present
      invariant count == |Newcomers(ldap[..i], mappings, present)| >= |adds.order|
      invariant forall j | j in Newcomers(ldap[..i], mappings, present) :: j < i
      invariant count == |adds.order| <==> !TwoShareAnAccount(ldap[..i], mappings, present)
    {
      if ldap[i].groups == [] {
        ok := false;
        return;
      }
      OneMoreWanted(ldap, i, mappings);
      OneMoreNewcomer(ldap, i, mappings, present);
      OneMoreToShare(ldap, i, mappings, present);
      RolesCarryOver(ldap, i, mappings, present, adds.value);
      var account := Account(mappings, ldap[i]);
      mapped := mapped + {account};
      if account !in external.value {
        adds := Put(adds, account, RoleFor(mappings, ldap[i]));
        count := count + 1;
      }
    }
    assert ldap[..|ldap|] == ldap;
  }

  lemma NoUsersYet(mappings: seq<Mapping>, present: set<Name>)
    ensures AreNew([], mappings, present, map[]) && Wanted([], mappings) == {}
    ensures !TwoShareAnAccount([], mappings, present) && Newcomers([], mappings, present) == {}
  {
    assert Wanted([], mappings) == {};
  }

  /** The second loop: accounts nobody stands for any more, in the order in which they were listed. */
  method OldAccounts(external: Dict, mapped: set<Name>) returns (deletes: seq<Name>)
    requires ValidDict(external)
    ensures Distinct(deletes) && SetOf(deletes) == Stale(external.value, mapped)
  {
    deletes := [];
    for i := 0 to |external.order|
      invariant Distinct(deletes) && SetOf(deletes) == Stale(external.value, mapped) * SetOf(external.order[..i])
    {
      var email := external.order[i];
      assert email in SetOf(external.order);
      assert SetOf(external.order[..i + 1]) == SetOf(external.order[..i]) + {email} by {
        assert external.order[..i + 1] == external.order[..i] + [email];
      }
      if external.value[email] == SUPER_ADMIN {
        continue;
      }
      if email !in mapped {
        assert email !in SetOf(deletes);
        assert SetOf(deletes + [email]) == SetOf(deletes) + {email};
        deletes := deletes + [email];
      }
    }
    assert external.order[..|external.order|] == external.order;
  }

  /** LDAP user i is the last one standing for e, and its first group maps to the role. */
  ghost predicate LastSays(ldap: seq<LdapUser>, mappings: seq<Mapping>, e: Name, i: nat, role: Name) {
    && i < |ldap| && StandsFor(mappings, ldap[i], e) && (forall j | i < j < |ldap| :: !StandsFor(mappings, ldap[j], e))
    && ldap[i].groups != [] && MapsTo(mappings, ldap[i].groups[0], role)
  }

  /** Accounts to add, told by the LDAP users, the member map and the accounts there are. */
  ghost predicate AddsWhatIsMissing(ldap: seq<LdapUser>, mappings: seq<Mapping>, external: Users, adds: Users) {
    && (forall e :: e in adds <==> e !in external && exists u :: u in ldap && StandsFor(mappings, u, e))
    && (forall e | e in adds :: exists i :: LastSays(ldap, mappings, e, i, adds[e]))
  }

  /** Accounts to delete: those no LDAP user stands for, except super admins. */
  ghost predicate DeletesWhatIsStale(ldap: seq<LdapUser>, mappings: seq<Mapping>, external: Users, deletes: seq<Name>) {
    forall e :: e in deletes
      <==> e in external && external[e] != "SuperAdmin" && !exists u :: u in ldap && StandsFor(mappings, u, e)
  }

  lemma WantedMeans(ldap: seq<LdapUser>, mappings: seq<Mapping>, e: Name)
    ensures e in Wanted(ldap, mappings) <==> exists u :: u in ldap && StandsFor(mappings, u, e)
  {
    hide Account, StandsFor;
    forall u ensures StandsFor(mappings, u, e) <==> e == Account(mappings, u) {
      AccountIsMapped(mappings, u, e);
    }
    if e in Wanted(ldap, mappings) {
      var i :| 0 <= i < |ldap| && Account(mappings, ldap[i]) == e;
      assert ldap[i] in ldap;
    }
  }

  lemma AddsMean(ldap: seq<LdapUser>, mappings: seq<Mapping>, external: Users, adds: Users)
    requires AreNew(ldap, mappings, external.Keys, adds)
    ensures AddsWhatIsMissing(ldap, mappings, external, adds)
  {
    hide Account, StandsFor, MapsTo, MapName, Wanted, RoleFromLast;
    forall e ensures e in adds <==> e !in external && exists u :: u in ldap && StandsFor(mappings, u, e) {
      WantedMeans(ldap, mappings, e);
    }
    forall e | e in adds ensures exists i :: LastSays(ldap, mappings, e, i, adds[e]) {
      RoleMeans(ldap, mappings, e, adds[e]);
    }
  }

  lemma RoleMeans(ldap: seq<LdapUser>, mappings: seq<Mapping>, e: Name, role: Name)
    requires RoleFromLast(ldap, mappings, e, role)
    ensures exists i :: LastSays(ldap, mappings, e, i, role)
  {
    hide Account, StandsFor, MapsTo, MapName;
    var i: nat :| LastFor(ldap, mappings, e, i) && ldap[i].groups != [] && role == RoleFor(mappings, ldap[i]);
    NameIsMapped(mappings, ldap[i].groups[0], role);
    forall j | i <= j < |ldap| ensures StandsFor(mappings, ldap[j], e) <==> i == j {
      AccountIsMapped(mappings, ldap[j], e);
    }
    assert LastSays(ldap, mappings, e, i, role);
  }

  lemma DeletesMean(ldap: seq<LdapUser>, mappings: seq<Mapping>, external: Users, deletes: seq<Name>)
    requires SetOf(deletes) == Stale(external, Wanted(ldap, mappings))
    ensures DeletesWhatIsStale(ldap, mappings, external, deletes)
  {
    hide StandsFor, Wanted;
    forall e ensures e in deletes
      <==> e in external && external[e] != "SuperAdmin" && !exists u :: u in ldap && StandsFor(mappings, u, e)
    {
      WantedMeans(ldap, mappings, e);
      assert e in deletes <==> e in SetOf(deletes);
    }
  }

  method GetChangeList(ldap: seq<LdapUser>, mappings: seq<Mapping>, external: Dict) returns (r: ChangeList)
    requires ValidDict(external)
    ensures r.IndexError? <==> SomeoneWithoutGroup(ldap)
    ensures r.ChangeList? ==> ValidDict(r.adds) && Distinct(r.deletes)
    ensures r.ChangeList? ==> AreNew(ldap, mappings, external.value.Keys, r.adds.value)
    ensures r.ChangeList? ==> SetOf(r.deletes) == Stale(external.value, Wanted(ldap, mappings))
    ensures r.ChangeList? ==> AddsWhatIsMissing(ldap, mappings, external.value, r.adds.value)
    ensures r.ChangeList? ==> DeletesWhatIsStale(ldap, mappings, external.value, r.deletes)
    ensures r.ChangeList? ==> r.count == |Newcomers(ldap, mappings, external.value.Keys)| + |r.deletes|
    ensures r.ChangeList? ==> (r.count == 0 <==> r.adds.value == map[] && r.deletes == [])
    ensures r.ChangeList? ==> r.count >= |r.adds.order| + |r.deletes|
    ensures r.ChangeList? ==>
      (r.count == |r.adds.order| + |r.deletes| <==> !TwoShareAnAccount(ldap, mappings, external.value.Keys))
  {
    hide AreNew, Wanted, AddsWhatIsMissing, DeletesWhatIsStale, TwoShareAnAccount, SomeoneWithoutGroup, Newcomers, Stale;
    var ok, adds, mapped, count := NewAccounts(ldap, mappings, external);
    if !ok {
      return IndexError;
    }
    var deletes := OldAccounts(external, mapped);
    AddsMean(ldap, mappings, external.value, adds.value);
    DeletesMean(ldap, mappings, external.value, deletes);
    NewcomersMeanAdds(ldap, mappings, external.value.Keys, adds.value);
    EmptyOrder(adds);
    return ChangeList(adds, deletes, count + |deletes|);
  }

  lemma NewcomersMeanAdds(ldap: seq<LdapUser>, mappings: seq<Mapping>, present: set<Name>, adds: Users)
    requires AreNew(ldap, mappings, present, adds)
    ensures Newcomers(ldap, mappings, present) == {} <==> adds.Keys == {}
  {
    if adds.Keys != {} {
      var e :| e in adds;
      var i :| 0 <= i < |ldap| && Account(mappings, ldap[i]) == e;
      assert i in Newcomers(ldap, mappings, present);
    }
    if Newcomers(ldap, mappings, present) != {} {
      var i: nat :| i in Newcomers(ldap, mappings, present);
      assert Account(mappings, ldap[i]) in adds.Keys;
    }
  }

  lemma EmptyOrder(d: Dict)
    requires ValidDict(d)
    ensures d.order == [] <==> d.value == map[]
  {
    if d.order != [] {
      assert d.order[0] in SetOf(d.order);
    }
    assert d.value == map[] || exists e :: e in d.value;
  }

  // ---------- Applying it ----------

  datatype Reply = Success(added: nat, deleted: nat) | NoReply | Raised

  function NamesOf(adds: Option<Dict>): seq<Name> { if adds.None? then [] else adds.value.order }

  function RolesOf(adds: Option<Dict>): Users { if adds.None? then map[] else adds.value.value }

  /** Creating an account fails when custom roles are in force, or when the account is there already. */
  predicate Refuses(users: Users, customRoles: bool, e: Name) { customRoles || e in users }

  ghost function Created(users: Users, roles: Users, names: seq<Name>): Users {
    users + map e | e in names && e in roles :: roles[e]
  }

  lemma OneMoreCreated(users: Users, adds: Dict, i: nat)
    requires ValidDict(adds) && i < |adds.order|
    ensures adds.order[i] in adds.value && adds.order[i] !in adds.order[..i]
    ensures Created(users, adds.value, adds.order[..i + 1])
      == Created(users, adds.value, adds.order[..i])[adds.order[i] := adds.value[adds.order[i]]]
    ensures adds.order[i] in Created(users, adds.value, adds.order[..i]) <==> adds.order[i] in users
  {
    var e, names := adds.order[i], adds.order[..i];
    assert e in SetOf(adds.order);
    assert adds.order[..i + 1] == names + [e];
    CreatedWith(users, adds.value, names, e);
  }

  lemma CreatedWith(users: Users, roles: Users, names: seq<Name>, e: Name)
    requires e in roles && e !in names
    ensures Created(users, roles, names + [e]) == Created(users, roles, names)[e := roles[e]]
    ensures e in Created(users, roles, names) <==> e in users
  {
    var one, two := Created(users, roles, names + [e]), Created(users, roles, names)[e := roles[e]];
    assert one.Keys == two.Keys;
    assert forall x | x in one :: one[x] == two[x];
  }

  lemma NoneCreated(users: Users, roles: Users)
    ensures Created(users, roles, []) == users
  {}

  lemma AllCreated(users: Users, adds: Dict)
    requires ValidDict(adds)
    ensures Created(users, adds.value, adds.order) == users + adds.value
  {
    assert forall e | e in adds.value :: e in SetOf(adds.order);
  }

  ghost function Left(users: Users, deletes: seq<Name>): Users { users - SetOf(deletes) }

  ghost function Hits(users: Users, deletes: seq<Name>): nat { |SetOf(deletes) * users.Keys| }

  lemma NoneDeleted(users: Users)
    ensures Left(users, []) == users && Hits(users, []) == 0
  {
    assert SetOf<Name>([]) == {};
  }

  lemma OneMoreDeleted(users: Users, deletes: seq<Name>, i: nat)
    requires i < |deletes|
    ensures Left(users, deletes[..i + 1]) == Left(users, deletes[..i]) - {deletes[i]}
    ensures if deletes[i] in Left(users, deletes[..i]) then Hits(users, deletes[..i + 1]) == Hits(users, deletes[..i]) + 1
      else Left(users, deletes[..i + 1]) == Left(users, deletes[..i]) && Hits(users, deletes[..i + 1]) == Hits(users, deletes[..i])
  {
    var gone, e := SetOf(deletes[..i]), deletes[i];
    assert deletes[..i + 1] == deletes[..i] + [e];
    assert SetOf(deletes[..i + 1]) == gone + {e};
    assert (gone + {e}) * users.Keys == gone * users.Keys + if e in users then {e} else {};
    assert e in users && e in gone ==> gone * users.Keys + {e} == gone * users.Keys;
  }

  /** k is the position of the first account that cannot be created, or there is none. */
  ghost predicate FirstRefused(users: Users, customRoles: bool, names: seq<Name>, k: nat) {
    && k <= |names| && (forall i | 0 <= i < k :: !Refuses(users, customRoles, names[i]))
    && (k < |names| ==> Refuses(users, customRoles, names[k]))
  }

  /** What one command makes of the accounts `before`, and what it answers. */
  ghost predicate Answer(before: Users, customRoles: bool, adds: Option<Dict>, deletes: Option<seq<Name>>,
      after: Users, reply: Reply) {
    exists k: nat :: FirstRefused(before, customRoles, NamesOf(adds), k)
      && if k < |NamesOf(adds)| then reply.Raised? && after == Created(before, RolesOf(adds), NamesOf(adds)[..k])
         else Completed(before + RolesOf(adds), k, deletes, after, reply)
  }

  ghost predicate Completed(created: Users, added: nat, deletes: Option<seq<Name>>, after: Users, reply: Reply) {
    if deletes.None? then reply.NoReply? && after == created
    else
      var deleted := Hits(created, deletes.value);
      after == Left(created, deletes.value) && reply == if added + deleted == 0 then Raised else Success(added, deleted)
  }

  /** The accounts of the installation, and the batch processor that changes them. */
  class UserAdmin {
    var users: Dict
    const customRoles: bool

    ghost predicate Valid() reads this { ValidDict(users) }

    constructor (users0: Dict, customRoles0: bool)
      requires ValidDict(users0)
      ensures Valid() && users == users0 && customRoles == customRoles0
    {
      users, customRoles := users0, customRoles0;
    }

    /** Stops at the first account that cannot be created; those before it stay. */
    method AddUsers(adds: Dict) returns (added: nat, ok: bool)
      requires Valid() && ValidDict(adds)
      modifies this
      ensures Valid() && added <= |adds.order|
      ensures users.value == Created(old(users.value), adds.value, adds.order[..added])
      ensures forall i | 0 <= i < added :: !Refuses(old(users.value), customRoles, adds.order[i])
      ensures ok <==> added == |adds.order|
      ensures !ok ==> Refuses(old(users.value), customRoles, adds.order[added])
    {
      hide Created, ValidDict;
      added, ok := 0, true;
      NoneCreated(users.value, adds.value);
      while added < |adds.order|
        invariant Valid() && added <= |adds.order|
        invariant users.value == Created(old(users.value), adds.value, adds.order[..added])
        invariant forall i | 0 <= i < added :: !Refuses(old(users.value), customRoles, adds.order[i])
      {
        var email := adds.order[added];
        OneMoreCreated(old(users.value), adds, added);
        if Refuses(users.value, customRoles, email) {
          return added, false;
        }
        users := Put(users, email, adds.value[email]);
        added := added + 1;
      }
    }

    /** Removes every listed account that exists, and counts those. */
    method DeleteUsers(deletes: seq<Name>) returns (deleted: nat)
      requires Valid()
      modifies this
      ensures Valid() && users.value == Left(old(users.value), deletes)
      ensures deleted == Hits(old(users.value), deletes)
    {
      hide ValidDict, Without, Left, Hits;
      deleted := 0;
      NoneDeleted(users.value);
      ghost var before := users.value;
      for i := 0 to |deletes|
        invariant Valid() && users.value == Left(before, deletes[..i])
        invariant deleted == Hits(before, deletes[..i])
      {
        var email := deletes[i];
        OneMoreDeleted(before, deletes, i);
        if email in users.value {
          users := Without(users, email);
          deleted := deleted + 1;
        }
      }
      assert deletes[..|deletes|] == deletes;
    }

    /**
     One command of the stream. A refused creation ends it there, nothing deleted; and when there is
     a delete list but nothing was created or deleted, putting the reply together raises an error.
     */
    method ProcessDictPart(adds: Option<Dict>, deletes: Option<seq<Name>>) returns (reply: Reply)
      requires Valid() && (adds.Some? ==> ValidDict(adds.value))
      modifies this
      ensures Valid()
      ensures Answer(old(users.value), customRoles, adds, deletes, users.value, reply)
    {
      hide Created, ValidDict, Refuses, Left, Hits;
      var added, deleted := 0, 0;
      ghost var before := users.value;
      assert before + map[] == before;
      if adds.Some? {
        var ok;
        added, ok := AddUsers(adds.value);
        assert FirstRefused(before, customRoles, NamesOf(adds), added);
        if !ok {
          return Raised;
        }
        assert adds.value.order[..added] == adds.value.order;
        AllCreated(before, adds.value);
      }
      assert FirstRefused(before, customRoles, NamesOf(adds), added);
      if deletes.None? {
        return NoReply;
      }
      deleted := DeleteUsers(deletes.value);
      return if deleted + added == 0 then Raised else Success(added, deleted);
    }
  }

  function Without(d: Dict, key: Name): (r: Dict)
    ensures (ValidDict(d) ==> ValidDict(r)) && r.value == d.value - {key}
  {
    KeepsValid(d, key);
    Dict(Filtered(d.order, key), d.value - {key})
  }

  function Filtered(xs: seq<Name>, key: Name): seq<Name> {
    if xs == [] then []
    else Filtered(xs[..|xs| - 1], key) + if xs[|xs| - 1] == key then [] else [xs[|xs| - 1]]
  }

  lemma {:induction false} FilteredFacts(xs: seq<Name>, key: Name)
    requires Distinct(xs)
    ensures Distinct(Filtered(xs, key)) && SetOf(Filtered(xs, key)) == SetOf(xs) - {key}
  {
    if xs != [] {
      var front, last := xs[..|xs| - 1], xs[|xs| - 1];
      var rest := Filtered(front, key);
      FilteredFacts(front, key);
      LastIsNew(front, last);
      assert xs == front + [last];
      assert SetOf(rest) == SetOf(front) - {key};
      if last == key {
        assert Filtered(xs, key) == rest;
        assert SetOf(xs) - {key} == SetOf(front) - {key};
      } else {
        AppendNew(rest, last);
        assert SetOf(xs) - {key} == SetOf(rest) + {last};
      }
    }
  }

  lemma LastIsNew(front: seq<Name>, last: Name)
    requires Distinct(front + [last])
    ensures Distinct(front) && last !in SetOf(front) && SetOf(front + [last]) == SetOf(front) + {last}
  {
    var xs := front + [last];
    assert forall i | 0 <= i < |front| :: xs[i] == front[i] && xs[i] != xs[|front|];
    assert forall x :: x in xs <==> x in front || x == last;
  }

  lemma AppendNew(rest: seq<Name>, last: Name)
    requires Distinct(rest) && last !in SetOf(rest)
    ensures Distinct(rest + [last]) && SetOf(rest + [last]) == SetOf(rest) + {last}
  {
    assert forall x :: x in rest + [last] <==> x in rest || x == last;
  }

  lemma KeepsValid(d: Dict, key: Name)
    ensures ValidDict(d) ==> ValidDict(Dict(Filtered(d.order, key), d.value - {key}))
  {
    if ValidDict(d) {
      FilteredFacts(d.order, key);
    }
  }

  // ---------- Main results ----------

  /** What a synchronisation is after: the wanted accounts, and the super admins there are. */
  ghost function Goal(ldap: seq<LdapUser>, mappings: seq<Mapping>, users: Users): set<Name> {
    Wanted(ldap, mappings) + Admins(users)
  }

  ghost predicate InSync(ldap: seq<LdapUser>, mappings: seq<Mapping>, users: Users) {
    Wanted(ldap, mappings) <= users.Keys && Stale(users, Wanted(ldap, mappings)) == {}
  }

  /** adds and deletes are what the change list holds for these accounts. */
  ghost predicate AreChanges(ldap: seq<LdapUser>, mappings: seq<Mapping>, users: Users, adds: Users,
      deletes: set<Name>) {
    AreNew(ldap, mappings, users.Keys, adds) && deletes == Stale(users, Wanted(ldap, mappings))
  }

  /** Nothing is both added and deleted; all of it applied reaches the goal, and no kept account changes role. */
  lemma ChangesReachGoal(ldap: seq<LdapUser>, mappings: seq<Mapping>, users: Users, adds: Users, deletes: set<Name>)
    requires AreChanges(ldap, mappings, users, adds, deletes)
    ensures adds.Keys !! deletes && adds.Keys !! users.Keys && Admins(users) !! deletes
    ensures (users + adds - deletes).Keys == Goal(ldap, mappings, users)
    ensures forall e | e in users && e !in deletes :: (users + adds - deletes)[e] == users[e]
    ensures InSync(ldap, mappings, users + adds - deletes)
  {
    assert (users + adds - deletes).Keys == Goal(ldap, mappings, users);
  }

  /** The change list is empty exactly for accounts in sync; so right after a sync it is. */
  lemma NothingToChangeIff(ldap: seq<LdapUser>, mappings: seq<Mapping>, users: Users, adds: Users, deletes: set<Name>)
    requires AreChanges(ldap, mappings, users, adds, deletes)
    ensures adds == map[] && deletes == {} <==> InSync(ldap, mappings, users)
    ensures InSync(ldap, mappings, users) <==> users.Keys == Goal(ldap, mappings, users)
  {
    hide Wanted;
    var wanted := Wanted(ldap, mappings);
    assert adds == map[] <==> adds.Keys == {};
    assert wanted <= users.Keys <==> forall e | e in wanted :: e !in wanted - users.Keys;
    assert users.Keys == Goal(ldap, mappings, users) <==> InSync(ldap, mappings, users) by {
      assert forall e | e in users.Keys :: e in Stale(users, wanted) || e in wanted + Admins(users);
    }
  }

  /** However much of the changes was carried out before a failure, the goal of the next sync is still the same. */
  lemma PartOfTheChangesKeepsGoal(ldap: seq<LdapUser>, mappings: seq<Mapping>, users: Users, adds: Users,
      deletes: set<Name>, names: seq<Name>, gone: set<Name>)
    requires AreChanges(ldap, mappings, users, adds, deletes) && gone <= deletes
    ensures Goal(ldap, mappings, Created(users, adds, names) - gone) == Goal(ldap, mappings, users)
  {
    var after := Created(users, adds, names) - gone;
    assert forall e | e in Admins(users) :: e in after && after[e] == users[e];
  }

  /**
   A command raises an error exactly when an account cannot be created, or when it has a delete list
   and neither creates nor deletes anything (where a reply that says so was meant).
   */
  lemma RaisesWhen(before: Users, customRoles: bool, adds: Option<Dict>, deletes: Option<seq<Name>>,
      after: Users, reply: Reply)
    requires Answer(before, customRoles, adds, deletes, after, reply)
    ensures var names := NamesOf(adds);
      var idle := names == [] && deletes.Some? && SetOf(deletes.value) !! (before + RolesOf(adds)).Keys;
      reply.Raised? <==> SomeRefused(before, customRoles, names) || idle
  {
    hide Created, Completed, FirstRefused, SomeRefused;
    var (names, created) := (NamesOf(adds), before + RolesOf(adds));
    var k: nat :| FirstRefused(before, customRoles, names, k)
      && if k < |names| then reply.Raised? && after == Created(before, RolesOf(adds), names[..k])
         else Completed(created, k, deletes, after, reply);
    RefusedMeans(before, customRoles, names, k);
    if k == |names| {
      CompletedRaises(created, k, deletes, after, reply);
    }
  }

  lemma CompletedRaises(created: Users, added: nat, deletes: Option<seq<Name>>, after: Users, reply: Reply)
    requires Completed(created, added, deletes, after, reply)
    ensures reply.Raised? <==> added == 0 && deletes.Some? && SetOf(deletes.value) !! created.Keys
  {
    hide Left;
    if deletes.Some? {
      NothingInCommon(SetOf(deletes.value), created.Keys);
    }
  }

  /** Custom roles are in force and there is a name, or one of the names is taken. */
  ghost predicate SomeRefused(users: Users, customRoles: bool, names: seq<Name>) {
    (customRoles && names != []) || exists e :: e in names && e in users
  }

  lemma RefusedMeans(users: Users, customRoles: bool, names: seq<Name>, k: nat)
    requires FirstRefused(users, customRoles, names, k)
    ensures k <= |names| && (k < |names| <==> SomeRefused(users, customRoles, names))
  {
    if e :| e in names && e in users {
      var i :| 0 <= i < |names| && names[i] == e;
      assert Refuses(users, customRoles, names[i]);
    }
    assert customRoles && names != [] ==> Refuses(users, customRoles, names[0]);
  }

  lemma NothingInCommon(a: set<Name>, b: set<Name>)
    ensures a !! b <==> |a * b| == 0
  {
    if a !! b {
      assert a * b == {};
    } else {
      var x :| x in a && x in b;
      assert x in a * b;
    }
  }

  /** Deleting one account that does not exist, and nothing else, is such a command. */
  lemma DeletingNobodyRaises(customRoles: bool, after: Users, reply: Reply)
    requires Answer(map[], customRoles, None, Some(["ann"]), after, reply)
    ensures reply.Raised? && after == map[]
  {
    RaisesWhen(map[], customRoles, None, Some(["ann"]), after, reply);
    assert map[] + RolesOf(None) == map[];
  }

  /** A change list that is not empty goes through whole, or, with custom roles in force and an account to add, not at all. */
  lemma AllOrNothing(users: Users, customRoles: bool, adds: Dict, deletes: seq<Name>, after: Users, reply: Reply)
    requires ValidDict(adds) && Distinct(deletes) && adds.value.Keys !! users.Keys && SetOf(deletes) <= users.Keys
    requires (adds.order != [] || deletes != []) && Answer(users, customRoles, Some(adds), Some(deletes), after, reply)
    ensures if customRoles && adds.order != [] then reply.Raised? && after == users
      else reply == Success(|adds.order|, |deletes|) && after == users + adds.value - SetOf(deletes)
  {
    hide Created, ValidDict, Refuses, Hits;
    Unrefused(users, customRoles, adds);
    var k: nat :| FirstRefused(users, customRoles, adds.order, k)
      && if k < |adds.order| then reply.Raised? && after == Created(users, adds.value, adds.order[..k])
         else Completed(users + adds.value, k, Some(deletes), after, reply);
    assert k > 0 ==> !Refuses(users, customRoles, adds.order[0]);
    assert customRoles && adds.order != [] ==> k == 0 && adds.order[..k] == [];
    NoneCreated(users, adds.value);
    EachHits(users + adds.value, deletes);
  }

  lemma Unrefused(users: Users, customRoles: bool, adds: Dict)
    requires ValidDict(adds) && adds.value.Keys !! users.Keys
    ensures forall i | 0 <= i < |adds.order| :: Refuses(users, customRoles, adds.order[i]) <==> customRoles
  {
    forall i | 0 <= i < |adds.order| ensures adds.order[i] !in users {
      assert adds.order[i] in SetOf(adds.order);
    }
  }

  lemma {:induction false} SizeOfSet(xs: seq<Name>)
    requires Distinct(xs)
    ensures |SetOf(xs)| == |xs|
  {
    if xs != [] {
      var front, last := xs[..|xs| - 1], xs[|xs| - 1];
      SizeOfSet(front);
      assert xs == front + [last];
      assert SetOf(xs) == SetOf(front) + {last};
    }
  }

  lemma SizeOfDict(d: Dict)
    requires ValidDict(d)
    ensures |d.value.Keys| == |d.order|
  {
    SizeOfSet(d.order);
  }

  lemma EachHits(users: Users, deletes: seq<Name>)
    requires Distinct(deletes) && SetOf(deletes) <= users.Keys
    ensures Hits(users, deletes) == |deletes|
  {
    SizeOfSet(deletes);
    assert SetOf(deletes) * users.Keys == SetOf(deletes);
  }

  lemma NoNames(xs: seq<Name>)
    ensures SetOf(xs) == {} <==> xs == []
  {
    if xs != [] {
      assert xs[0] in SetOf(xs);
    }
  }

  datatype Report = AlreadyInSync | DryRun(count: nat) | Applied(added: nat, deleted: nat) | Failed

  /** The accounts are those of the goal; kept ones have the role they had, new ones that of their last LDAP user. */
  ghost predicate Synced(ldap: seq<LdapUser>, mappings: seq<Mapping>, before: Users, after: Users) {
    && after.Keys == Goal(ldap, mappings, before)
    && (forall e | e in after && e in before :: after[e] == before[e])
    && (forall e | e in after && e !in before :: RoleFromLast(ldap, mappings, e, after[e]))
  }

  /** Every wanted account exists, with the role of its last LDAP user. */
  ghost predicate RolesAreCurrent(ldap: seq<LdapUser>, mappings: seq<Mapping>, users: Users) {
    forall e | e in Wanted(ldap, mappings) :: e in users && RoleFromLast(ldap, mappings, e, users[e])
  }

  /** A sync brings the roles up to date exactly when those of the wanted accounts there were so before. */
  lemma RolesAreCurrentIff(ldap: seq<LdapUser>, mappings: seq<Mapping>, before: Users, after: Users)
    requires Synced(ldap, mappings, before, after)
    ensures RolesAreCurrent(ldap, mappings, after)
      <==> forall e | e in Wanted(ldap, mappings) && e in before :: RoleFromLast(ldap, mappings, e, before[e])
  {
    hide Wanted, RoleFromLast;
    forall e | e in Wanted(ldap, mappings) ensures e in after {
      assert e in Goal(ldap, mappings, before);
    }
  }

  /** One user whose group changed: the accounts count as in sync, and the role is not the one LDAP asks for. */
  lemma StaleRoleStays()
    ensures var (ldap, users) := ([LdapUser("ann", ["Admin"])], map["ann" := "ReadOnly"]);
      && InSync(ldap, [], users) && Synced(ldap, [], users, users)
      && RoleFromLast(ldap, [], "ann", "Admin") && !RolesAreCurrent(ldap, [], users)
  {
    var ldap := [LdapUser("ann", ["Admin"])];
    assert Lower("ann") == "ann";
    assert Account([], ldap[0]) == "ann" && RoleFor([], ldap[0]) == "Admin";
    assert LastFor(ldap, [], "ann", 0);
    assert Wanted(ldap, []) == {"ann"};
  }

  lemma ChangesSynchronise(ldap: seq<LdapUser>, mappings: seq<Mapping>, users: Users, adds: Users, deletes: set<Name>)
    requires AreChanges(ldap, mappings, users, adds, deletes)
    ensures var after := users + adds - deletes;
      && Synced(ldap, mappings, users, after) && InSync(ldap, mappings, after)
      && after.Keys - users.Keys == adds.Keys && users.Keys - after.Keys == deletes
    ensures adds == map[] <==> Wanted(ldap, mappings) - users.Keys == {}
    ensures adds.Keys !! users.Keys && deletes <= users.Keys
  {
    hide RoleFromLast, Wanted;
    var after := users + adds - deletes;
    ChangesReachGoal(ldap, mappings, users, adds, deletes);
    assert after.Keys - users.Keys == adds.Keys;
    assert users.Keys - after.Keys == deletes;
    assert adds == map[] <==> adds.Keys == {};
  }

  /**
   One run of the plugin. It fails exactly when an LDAP user has no group or an account is missing
   while custom roles are in force, and then nothing at all has changed; otherwise the accounts are
   those of the goal, kept ones with the role they had.
   */
  method SyncUsers(ldap: seq<LdapUser>, mappings: seq<Mapping>, dryRun: bool, admin: UserAdmin) returns (report: Report)
    requires admin.Valid()
    modifies admin
    ensures admin.Valid()
    ensures var missing := Wanted(ldap, mappings) - old(admin.users.value).Keys;
      report.Failed? == (SomeoneWithoutGroup(ldap) || (!dryRun && admin.customRoles && missing != {}))
    ensures !SomeoneWithoutGroup(ldap) ==> (report.AlreadyInSync? <==> InSync(ldap, mappings, old(admin.users.value)))
    ensures if dryRun then !report.Applied? else !report.DryRun?
    ensures !report.Applied? ==> admin.users.value == old(admin.users.value)
    ensures report.Applied? ==> Synced(ldap, mappings, old(admin.users.value), admin.users.value)
    ensures report.Applied? || report.AlreadyInSync? ==> InSync(ldap, mappings, admin.users.value)
    ensures report.Applied? ==> report.added == |admin.users.value.Keys - old(admin.users.value).Keys|
    ensures report.Applied? ==> report.deleted == |old(admin.users.value).Keys - admin.users.value.Keys|
  {
    hide AreNew, Wanted, Synced, InSync, SetOf, Distinct, Goal, Stale, Newcomers, TwoShareAnAccount,
      SomeoneWithoutGroup, Answer;
    ghost var before := admin.users.value;
    var changes := GetChangeList(ldap, mappings, admin.users);
    if changes.IndexError? {
      return Failed;
    }
    ghost var (adds, deletes) := (changes.adds.value, SetOf(changes.deletes));
    ChangesSynchronise(ldap, mappings, before, adds, deletes);
    NothingToChangeIff(ldap, mappings, before, adds, deletes);
    SizeOfDict(changes.adds);
    SizeOfSet(changes.deletes);
    EmptyOrder(changes.adds);
    NoNames(changes.deletes);
    if changes.count == 0 {
      return AlreadyInSync;
    }
    if dryRun {
      return DryRun(changes.count);
    }
    var reply := admin.ProcessDictPart(Some(changes.adds), Some(changes.deletes));
    AllOrNothing(before, admin.customRoles, changes.adds, changes.deletes, admin.users.value, reply);
    match reply
    case Success(added, deleted) => report := Applied(added, deleted);
    case NoReply => report := Failed;
    case Raised => report := Failed;
  }
}
