/** The gateway's connection registry with its user, account and per-IP indexes
    and its counters. Each method is one step, and connection ids are unique. */
module ConnManager {
  import opened Common
  import opened RemoteAddr

  type Id = string

  /** `host` caches the peer host once it was asked for or overridden. */
  datatype Conn = Conn(user: string, account: string, addr: string, host: Option<string>)

  function RemoteHost(c: Conn): string
  {
    if c.host.Some? then c.host.value else Host(c.addr)
  }

  datatype Manager = Manager(
    conns: map<Id, Conn>,
    users: map<string, Id>,
    accounts: map<string, set<Id>>,
    ips: map<string, nat>,
    count: int, total: int, active: int, closed: int)

  // ---------------------------------------------------------------- operations

  function Cnt(ips: map<string, nat>, h: string): nat
  {
    if h in ips then ips[h] else 0
  }

  function IncIp(ips: map<string, nat>, h: string): map<string, nat>
  {
    if h == "" then ips else ips[h := Cnt(ips, h) + 1]
  }

  function DecIp(ips: map<string, nat>, h: string): map<string, nat>
  {
    if h == "" then ips else if Cnt(ips, h) <= 1 then ips - {h} else ips[h := ips[h] - 1]
  }

  function Of(accounts: map<string, set<Id>>, a: string): set<Id>
  {
    if a in accounts then accounts[a] else {}
  }

  function DropAccount(accounts: map<string, set<Id>>, a: string, id: Id): map<string, set<Id>>
  {
    if a == "" || a !in accounts then accounts
    else if accounts[a] - {id} == {} then accounts - {a}
    else accounts[a := accounts[a] - {id}]
  }

  function DropUser(users: map<string, Id>, u: string, id: Id): map<string, Id>
  {
    if u in users && users[u] == id then users - {u} else users
  }

  function Add(m: Manager, id: Id, user: string, addr: string): Manager
  {
    Manager(m.conns[id := Conn(user, "", addr, None)], m.users[user := id], m.accounts, IncIp(m.ips, Host(addr)),
            m.count + 1, m.total + 1, m.active + 1, m.closed)
  }

  function Remove(m: Manager, id: Id): Manager
  {
    if id !in m.conns then m
    else
      var c := m.conns[id];
      Manager(m.conns - {id}, DropUser(m.users, c.user, id), DropAccount(m.accounts, c.account, id),
              DecIp(m.ips, Host(c.addr)), m.count - 1, m.total, m.active - 1, m.closed + 1)
  }

  /** A connection after its host was overridden. */
  function Relocated(c: Conn, ip: string): Conn
  {
    c.(host := Some(ip), addr := WithHost(c.addr, ip))
  }

  function UpdateIp(m: Manager, id: Id, ip: string): (r: (Manager, bool))
  {
    if id !in m.conns || ip == "" then (m, false)
    else
      var c := m.conns[id];
      var from := RemoteHost(c);
      if from == ip then (m.(conns := m.conns[id := c.(host := Some(from))]), false)
      else (m.(conns := m.conns[id := Relocated(c, ip)], ips := IncIp(DecIp(m.ips, from), ip)), true)
  }

  function SetUser(m: Manager, id: Id, user: string): Manager
  {
    if id !in m.conns then m
    else
      var c := m.conns[id];
      m.(conns := m.conns[id := c.(user := user)], users := DropUser(m.users, c.user, id)[user := id])
  }

  function SetAccount(m: Manager, id: Id, account: string): Manager
  {
    if account == "" || id !in m.conns then m
    else
      m.(conns := m.conns[id := m.conns[id].(account := account)],
         accounts := m.accounts[account := Of(m.accounts, account) + {id}])
  }

  datatype Op =
    | DoAdd(id: Id, user: string, addr: string)
    | DoRemove(id: Id)
    | DoUpdateIp(id: Id, ip: string)
    | DoSetUser(id: Id, user: string)
    | DoSetAccount(id: Id, account: string)

  /** Adding needs an id that is not in use, which the id generator provides. */
  ghost predicate Enabled(m: Manager, op: Op)
  {
    op.DoAdd? ==> op.id !in m.conns
  }

  function Step(m: Manager, op: Op): Manager
  {
    match op
    case DoAdd(id, user, addr) => Add(m, id, user, addr)
    case DoRemove(id) => Remove(m, id)
    case DoUpdateIp(id, ip) => UpdateIp(m, id, ip).0
    case DoSetUser(id, user) => SetUser(m, id, user)
    case DoSetAccount(id, account) => SetAccount(m, id, account)
  }

  const EMPTY := Manager(map[], map[], map[], map[], 0, 0, 0, 0)

  function Run(m: Manager, ops: seq<Op>): Manager
    decreases |ops|
  {
    if ops == [] then m else Run(Step(m, ops[0]), ops[1..])
  }

  ghost predicate IsRun(m: Manager, ops: seq<Op>)
    decreases |ops|
  {
    ops != [] ==> Enabled(m, ops[0]) && IsRun(Step(m, ops[0]), ops[1..])
  }

  // ---------------------------------------------------------------- indexes and counters

  ghost predicate UsersSound(m: Manager)
  {
    forall u :: u in m.users ==> m.users[u] in m.conns && m.conns[m.users[u]].user == u
  }

  ghost predicate AccountsComplete(m: Manager)
  {
    && (forall id :: id in m.conns && m.conns[id].account != "" ==> id in Of(m.accounts, m.conns[id].account))
    && (forall a :: a in m.accounts ==> a != "" && m.accounts[a] != {})
  }

  ghost predicate Counted(m: Manager)
  {
    m.count == m.active == |m.conns| && m.total == m.active + m.closed
  }

  /** Only positive counts are kept, and none for the empty host. */
  ghost predicate Positive(ips: map<string, nat>)
  {
    forall h :: h in ips ==> h != "" && ips[h] > 0
  }

  ghost predicate Inv(m: Manager)
  {
    UsersSound(m) && AccountsComplete(m) && Counted(m) && Positive(m.ips)
  }

  lemma StepUsers(m: Manager, op: Op)
    requires UsersSound(m) && Enabled(m, op)
    ensures UsersSound(Step(m, op))
  {
    hide Of, DropAccount, IncIp, DecIp, RemoteHost, WithHost, Host;
  }

  lemma StepAccounts(m: Manager, op: Op)
    requires AccountsComplete(m) && Enabled(m, op)
    ensures AccountsComplete(Step(m, op))
  {
    hide DropUser, IncIp, DecIp, RemoteHost, WithHost, Host;
    match op
    case DoAdd(id, user, addr) =>
    case DoRemove(id) => RemoveAccounts(m, id);
    case DoUpdateIp(id, ip) =>
    case DoSetUser(id, user) =>
    case DoSetAccount(id, account) =>
  }

  /** Dropping a connection from an account takes it out of that account's set and
      leaves every other set alone. */
  lemma OfDrop(accounts: map<string, set<Id>>, a: string, id: Id, b: string)
    ensures a != "" ==> Of(DropAccount(accounts, a, id), b) == if b == a then Of(accounts, b) - {id} else Of(accounts, b)
  {
  }

  lemma RemoveAccounts(m: Manager, id: Id)
    requires AccountsComplete(m)
    ensures AccountsComplete(Remove(m, id))
  {
    hide DropUser, DecIp, Host;
    if id in m.conns {
      var a := m.conns[id].account;
      forall j | j in m.conns && j != id && m.conns[j].account != ""
        ensures j in Of(DropAccount(m.accounts, a, id), m.conns[j].account)
      {
        OfDrop(m.accounts, a, id, m.conns[j].account);
      }
    }
  }

  lemma StepCounts(m: Manager, op: Op)
    requires Counted(m) && Enabled(m, op)
    ensures Counted(Step(m, op))
  {
    hide Counted, Of, DropUser, DropAccount, IncIp, DecIp, RemoteHost, Relocated, Host;
    match op
    case DoAdd(id, user, addr) => AddCounts(m, id, user, addr);
    case DoRemove(id) => RemoveCounts(m, id);
    case DoUpdateIp(id, ip) => SameKeys(m, Step(m, op));
    case DoSetUser(id, user) => SameKeys(m, Step(m, op));
    case DoSetAccount(id, account) => SameKeys(m, Step(m, op));
  }

  lemma AddCounts(m: Manager, id: Id, user: string, addr: string)
    requires Counted(m) && id !in m.conns
    ensures Counted(Add(m, id, user, addr))
  {
    hide IncIp, Host;
    AddCard(m.conns, id, Conn(user, "", addr, None));
  }

  lemma RemoveCounts(m: Manager, id: Id)
    requires Counted(m)
    ensures Counted(Remove(m, id))
  {
    hide DropUser, DropAccount, DecIp, Host;
    if id in m.conns {
      RemoveCard(m.conns, id);
    }
  }

  lemma SameKeys(m: Manager, t: Manager)
    requires Counted(m) && t.conns.Keys == m.conns.Keys
    requires (t.count, t.total, t.active, t.closed) == (m.count, m.total, m.active, m.closed)
    ensures Counted(t)
  {
    assert |m.conns| == |m.conns.Keys| && |t.conns| == |t.conns.Keys|;
  }

  lemma AddCard(conns: map<Id, Conn>, id: Id, c: Conn)
    requires id !in conns
    ensures |conns[id := c]| == |conns| + 1
  {
    assert conns[id := c].Keys == conns.Keys + {id};
  }

  lemma RemoveCard(conns: map<Id, Conn>, id: Id)
    requires id in conns
    ensures |conns - {id}| == |conns| - 1
  {
    assert (conns - {id}).Keys == conns.Keys - {id};
  }

  lemma StepPositive(m: Manager, op: Op)
    requires Positive(m.ips)
    ensures Positive(Step(m, op).ips)
  {
    hide Positive, Of, DropUser, DropAccount, IncIp, DecIp, RemoteHost, Relocated, Host;
    match op
    case DoAdd(id, user, addr) => CntInc(m.ips, Host(addr), "");
    case DoRemove(id) => if id in m.conns { CntDec(m.ips, Host(m.conns[id].addr), ""); }
    case DoUpdateIp(id, ip) =>
      if id in m.conns {
        CntDec(m.ips, RemoteHost(m.conns[id]), "");
        CntInc(DecIp(m.ips, RemoteHost(m.conns[id])), ip, "");
      }
    case DoSetUser(id, user) =>
    case DoSetAccount(id, account) =>
  }

  lemma StepKeeps(m: Manager, op: Op)
    requires Inv(m) && Enabled(m, op)
    ensures Inv(Step(m, op))
  {
    hide UsersSound, AccountsComplete, Counted, Positive, Step;
    StepUsers(m, op);
    StepAccounts(m, op);
    StepCounts(m, op);
    StepPositive(m, op);
  }

  lemma EmptyOk()
    ensures Inv(EMPTY)
  {
  }

  lemma AddKeeps(m: Manager, id: Id, user: string, addr: string)
    requires Inv(m) && id !in m.conns
    ensures Inv(Add(m, id, user, addr))
  {
    hide Inv, Add;
    StepKeeps(m, DoAdd(id, user, addr));
  }

  lemma RemoveKeeps(m: Manager, id: Id)
    requires Inv(m)
    ensures Inv(Remove(m, id))
  {
    hide Inv, Remove;
    StepKeeps(m, DoRemove(id));
  }

  lemma UpdateIpKeeps(m: Manager, id: Id, ip: string)
    requires Inv(m)
    ensures Inv(UpdateIp(m, id, ip).0)
  {
    hide Inv, UpdateIp;
    StepKeeps(m, DoUpdateIp(id, ip));
  }

  lemma SetUserKeeps(m: Manager, id: Id, user: string)
    requires Inv(m)
    ensures Inv(SetUser(m, id, user))
  {
    hide Inv, SetUser;
    StepKeeps(m, DoSetUser(id, user));
  }

  lemma SetAccountKeeps(m: Manager, id: Id, account: string)
    requires Inv(m)
    ensures Inv(SetAccount(m, id, account))
  {
    hide Inv, SetAccount;
    StepKeeps(m, DoSetAccount(id, account));
  }

  lemma {:induction false} RunKeeps(m: Manager, ops: seq<Op>)
    requires Inv(m) && IsRun(m, ops)
    ensures Inv(Run(m, ops))
    decreases |ops|
  {
    hide Inv, Step;
    if ops != [] {
      StepKeeps(m, ops[0]);
      RunKeeps(Step(m, ops[0]), ops[1..]);
    }
  }

  /** After every run: each user entry leads to a live connection with that user,
      each live connection with an account is in the account's set, and the
      counters are the size of the registry, total being active plus closed. */
  lemma IndexesAgree(ops: seq<Op>)
    requires IsRun(EMPTY, ops)
    ensures var m := Run(EMPTY, ops);
            && (forall u :: u in m.users ==> m.users[u] in m.conns && m.conns[m.users[u]].user == u)
            && (forall id :: id in m.conns && m.conns[id].account != "" ==> id in Of(m.accounts, m.conns[id].account))
            && m.count == m.active == |m.conns| && m.total == m.active + m.closed
  {
    hide Run, IsRun, Step;
    EmptyOk();
    RunKeeps(EMPTY, ops);
  }

  // ---------------------------------------------------------------- what each operation does

  /** A user leads to a connection after an operation if and only if the connection
      has just been added or renamed with that user, or the user led to it and was
      neither taken over by another connection nor given up by this one. */
  lemma UserLeadsExactly(m: Manager, op: Op, u: string, id: Id)
    requires Inv(m) && Enabled(m, op)
    ensures var t := Step(m, op);
            var names := (op.DoAdd? || (op.DoSetUser? && op.id in m.conns)) && op.user == u;
            (u in t.users && t.users[u] == id) <==>
              || (names && op.id == id)
              || (&& u in m.users && m.users[u] == id && !names
                  && !(op == DoRemove(id)) && !(op.DoSetUser? && op.id == id && op.user != u))
  {
    hide AccountsComplete, Counted, Positive, Of, DropAccount, IncIp, DecIp, RemoteHost, Relocated, Host;
  }

  /** What the operations do to a connection, which is live exactly from its adding to
      its removal. */
  lemma ConnExactly(m: Manager, op: Op, id: Id)
    requires Enabled(m, op)
    ensures var t := Step(m, op);
            && (id in t.conns <==> (op.DoAdd? && op.id == id) || (id in m.conns && op != DoRemove(id)))
            && (op.DoAdd? && op.id == id ==>
                  t.conns[id].user == op.user && t.conns[id].account == "" && t.conns[id].addr == op.addr
                  && RemoteHost(t.conns[id]) == Host(op.addr))
            && (id in m.conns && id in t.conns ==>
                  && t.conns[id].user == (if op.DoSetUser? && op.id == id then op.user else m.conns[id].user)
                  && t.conns[id].account == (if op.DoSetAccount? && op.id == id && op.account != "" then op.account else m.conns[id].account)
                  && RemoteHost(t.conns[id]) == (if op.DoUpdateIp? && op.id == id && op.ip != "" then op.ip else RemoteHost(m.conns[id])))
  {
    hide Of, DropUser, DropAccount, IncIp, DecIp, Host, WithHost;
  }

  /** Which connections an account lists: those it has listed or just been given, but
      not one that is removed while it has that account. */
  lemma ListedExactly(m: Manager, op: Op, a: string, id: Id)
    requires Inv(m) && Enabled(m, op) && a != ""
    ensures id in Of(Step(m, op).accounts, a) <==>
              || (op == DoSetAccount(id, a) && id in m.conns)
              || (id in Of(m.accounts, a) && !(op == DoRemove(id) && id in m.conns && m.conns[id].account == a))
  {
    hide UsersSound, Counted, Positive, DropUser, DropAccount, IncIp, DecIp, RemoteHost, Relocated, Host;
    if op.DoRemove? && op.id in m.conns {
      OfDrop(m.accounts, m.conns[op.id].account, op.id, a);
      NoDrop(m.accounts, op.id);
    }
  }

  /** Replacing an address answers whether the peer host has changed. */
  lemma UpdateIpAnswers(m: Manager, id: Id, ip: string)
    ensures var (t, changed) := UpdateIp(m, id, ip);
            changed <==> id in m.conns && RemoteHost(t.conns[id]) != RemoteHost(m.conns[id])
  {
    hide Host, WithHost, IncIp, DecIp;
  }

  function Adds(ops: seq<Op>): nat
    decreases |ops|
  {
    if ops == [] then 0 else (if ops[0].DoAdd? then 1 else 0) + Adds(ops[1..])
  }

  lemma {:induction false} TotalIsAdds(m: Manager, ops: seq<Op>)
    ensures Run(m, ops).total == m.total + Adds(ops)
    decreases |ops|
  {
    hide DropUser, DropAccount, IncIp, DecIp, RemoteHost, Relocated, Host, Of;
    if ops != [] {
      TotalIsAdds(Step(m, ops[0]), ops[1..]);
    }
  }

  /** The total counts every connection ever added, and those closed are the ones
      that are not live any more. */
  lemma TotalsExactly(ops: seq<Op>)
    requires IsRun(EMPTY, ops)
    ensures var m := Run(EMPTY, ops); m.total == Adds(ops) && m.closed == Adds(ops) - |m.conns|
  {
    hide Run, IsRun, Adds;
    TotalIsAdds(EMPTY, ops);
    IndexesAgree(ops);
  }

  /** Account sets that hold exactly the live connections of the account. */
  ghost predicate AccountsExact(m: Manager)
  {
    forall a, id :: a != "" ==> (id in Of(m.accounts, a) <==> id in m.conns && m.conns[id].account == a)
  }

  /** Exactness is lost exactly when a connection's account is changed to another
      one: it stays listed under the first. */
  lemma AccountsStayExact(m: Manager, id: Id, account: string)
    requires Inv(m) && AccountsExact(m)
    ensures AccountsExact(SetAccount(m, id, account)) <==>
              account == "" || id !in m.conns || m.conns[id].account in {"", account}
  {
    hide UsersSound, Counted;
    var t := SetAccount(m, id, account);
    if account != "" && id in m.conns {
      var was := m.conns[id].account;
      if was in {"", account} {
        forall a, j | a != "" ensures j in Of(t.accounts, a) <==> j in t.conns && t.conns[j].account == a {
          assert j in Of(m.accounts, a) <==> j in m.conns && m.conns[j].account == a;
        }
      } else {
        assert id in Of(m.accounts, was);
        assert id in Of(t.accounts, was) && t.conns[id].account != was;
        assert !AccountsExact(t);
      }
    }
  }

  /** Changes a live connection from one account to another. */
  ghost predicate ChangesAccount(m: Manager, op: Op)
  {
    op.DoSetAccount? && op.account != "" && op.id in m.conns && m.conns[op.id].account !in {"", op.account}
  }

  ghost predicate NoAccountChange(m: Manager, ops: seq<Op>)
    decreases |ops|
  {
    ops != [] ==> !ChangesAccount(m, ops[0]) && NoAccountChange(Step(m, ops[0]), ops[1..])
  }

  lemma RemoveKeepsExact(m: Manager, id: Id)
    requires AccountsExact(m)
    ensures AccountsExact(Remove(m, id))
  {
    hide DropUser, DecIp, Host, DropAccount, Of;
    if id in m.conns {
      var was := m.conns[id].account;
      var t := Remove(m, id);
      forall a, j | a != "" ensures j in Of(t.accounts, a) <==> j in t.conns && t.conns[j].account == a {
        OfDrop(m.accounts, was, id, a);
        NoDrop(m.accounts, id);
        assert j in Of(m.accounts, a) <==> j in m.conns && m.conns[j].account == a;
        assert id in Of(m.accounts, a) <==> id in m.conns && m.conns[id].account == a;
      }
    }
  }

  lemma NoDrop(accounts: map<string, set<Id>>, id: Id)
    ensures DropAccount(accounts, "", id) == accounts
  {
  }

  /** A step without a change of account keeps the account sets exact, and a change
      always breaks them. */
  lemma StepExact(m: Manager, op: Op)
    requires Inv(m) && AccountsExact(m) && Enabled(m, op)
    ensures AccountsExact(Step(m, op)) <==> !ChangesAccount(m, op)
  {
    hide DropUser, DropAccount, IncIp, DecIp, RemoteHost, WithHost, Host, Inv;
    match op
    case DoAdd(id, user, addr) => SameAccounts(m, Step(m, op), id);
    case DoRemove(id) => RemoveKeepsExact(m, id);
    case DoUpdateIp(id, ip) => SameAccounts(m, Step(m, op), id);
    case DoSetUser(id, user) => SameAccounts(m, Step(m, op), id);
    case DoSetAccount(id, account) => AccountsStayExact(m, id, account);
  }

  lemma SameAccounts(m: Manager, t: Manager, id: Id)
    requires AccountsExact(m) && t.accounts == m.accounts
    requires forall j :: j in m.conns ==> j in t.conns && t.conns[j].account == m.conns[j].account
    requires forall j :: j in t.conns && j !in m.conns ==> j == id && t.conns[j].account == ""
    ensures AccountsExact(t)
  {
    hide Of;
    forall a, j | a != "" ensures j in Of(t.accounts, a) <==> j in t.conns && t.conns[j].account == a {
      assert j in Of(m.accounts, a) <==> j in m.conns && m.conns[j].account == a;
    }
  }

  lemma {:induction false} RunExact(m: Manager, ops: seq<Op>)
    requires Inv(m) && AccountsExact(m) && IsRun(m, ops) && NoAccountChange(m, ops)
    ensures AccountsExact(Run(m, ops))
    decreases |ops|
  {
    hide Inv, AccountsExact, Step, ChangesAccount;
    if ops != [] {
      StepExact(m, ops[0]);
      StepKeeps(m, ops[0]);
      RunExact(Step(m, ops[0]), ops[1..]);
    }
  }

  /** A connection, live or gone, is listed under an account that is not its own. */
  ghost predicate Misplaced(m: Manager, id: Id, a: string)
  {
    && a != "" && id in Of(m.accounts, a)
    && (id in m.conns ==> m.conns[id].account != "" && m.conns[id].account != a)
  }

  lemma ChangeMisplaces(m: Manager, op: Op)
    requires Inv(m) && ChangesAccount(m, op)
    ensures Misplaced(Step(m, op), op.id, m.conns[op.id].account)
  {
    hide UsersSound, Counted;
  }

  /** Once misplaced, a connection whose id is not used again stays misplaced,
      though perhaps under another account. */
  lemma MisplacedStep(m: Manager, op: Op, id: Id, a: string) returns (b: string)
    requires Inv(m) && Enabled(m, op) && Misplaced(m, id, a) && (op.DoAdd? ==> op.id != id)
    ensures Misplaced(Step(m, op), id, b)
  {
    hide UsersSound, Counted, DropUser, DropAccount, IncIp, DecIp, RemoteHost, WithHost, Host;
    b := a;
    match op
    case DoAdd(_, _, _) =>
    case DoRemove(j) =>
      if j in m.conns {
        OfDrop(m.accounts, m.conns[j].account, j, a);
        NoDrop(m.accounts, j);
      }
    case DoUpdateIp(_, _) =>
    case DoSetUser(_, _) =>
    case DoSetAccount(j, account) =>
      if j == id && j in m.conns && account == a {
        b := m.conns[j].account;
      }
  }

  lemma {:induction false} MisplacedRun(m: Manager, ops: seq<Op>, id: Id, a: string)
    requires Inv(m) && IsRun(m, ops) && Misplaced(m, id, a)
    requires forall k :: 0 <= k < |ops| && ops[k].DoAdd? ==> ops[k].id != id
    ensures !AccountsExact(Run(m, ops))
    decreases |ops|
  {
    hide Inv, Step;
    if ops != [] {
      var b := MisplacedStep(m, ops[0], id, a);
      StepKeeps(m, ops[0]);
      MisplacedRun(Step(m, ops[0]), ops[1..], id, b);
    }
  }

  ghost predicate NoIdTwice(ops: seq<Op>)
  {
    forall i, j :: 0 <= i < j < |ops| && ops[i].DoAdd? && ops[j].DoAdd? ==> ops[i].id != ops[j].id
  }

  ghost predicate NoneAddedAgain(m: Manager, ops: seq<Op>)
  {
    forall k :: 0 <= k < |ops| && ops[k].DoAdd? ==> ops[k].id !in m.conns
  }

  lemma NoneAddedAgainStep(m: Manager, ops: seq<Op>)
    requires ops != [] && NoIdTwice(ops) && NoneAddedAgain(m, ops)
    ensures NoIdTwice(ops[1..]) && NoneAddedAgain(Step(m, ops[0]), ops[1..])
  {
    hide DropUser, DropAccount, IncIp, DecIp, RemoteHost, Relocated, Host, Of;
    forall k | 0 <= k < |ops[1..]| ensures ops[1..][k] == ops[k + 1] {}
  }

  lemma {:induction false} RunInexact(m: Manager, ops: seq<Op>)
    requires Inv(m) && IsRun(m, ops) && !NoAccountChange(m, ops)
    requires NoIdTwice(ops) && NoneAddedAgain(m, ops)
    ensures !AccountsExact(Run(m, ops))
    decreases |ops|
  {
    hide Inv, Step, AccountsExact;
    StepKeeps(m, ops[0]);
    NoneAddedAgainStep(m, ops);
    if ChangesAccount(m, ops[0]) {
      ChangeMisplaces(m, ops[0]);
      MisplacedRun(Step(m, ops[0]), ops[1..], ops[0].id, m.conns[ops[0].id].account);
    } else {
      RunInexact(Step(m, ops[0]), ops[1..]);
    }
  }

  lemma EmptyExact(ops: seq<Op>)
    ensures AccountsExact(EMPTY) && NoneAddedAgain(EMPTY, ops)
  {
  }

  /** With connection ids that are never used again, which the id generator
      provides, account sets list exactly the live connections of their account
      after a run if and only if no connection changed from one account to another
      in it. */
  lemma AccountsExactlyUnlessChanged(ops: seq<Op>)
    requires IsRun(EMPTY, ops) && NoIdTwice(ops)
    ensures AccountsExact(Run(EMPTY, ops)) <==> NoAccountChange(EMPTY, ops)
  {
    hide Run, IsRun, NoAccountChange, NoIdTwice, Inv, AccountsExact;
    EmptyOk();
    EmptyExact(ops);
    if NoAccountChange(EMPTY, ops) {
      RunExact(EMPTY, ops);
    } else {
      RunInexact(EMPTY, ops);
    }
  }

  /** A connection that changed its account is still listed under the first one
      when it is gone. */
  lemma ClosedConnectionStaysListed()
    ensures var ops := [DoAdd("c", "u", ""), DoSetAccount("c", "a"), DoSetAccount("c", "b"), DoRemove("c")];
            var m := Run(EMPTY, ops);
            IsRun(EMPTY, ops) && "c" !in m.conns && "c" in Of(m.accounts, "a")
  {
    var ops := [DoAdd("c", "u", ""), DoSetAccount("c", "a"), DoSetAccount("c", "b"), DoRemove("c")];
    var s1 := Step(EMPTY, ops[0]);
    var s2 := Step(s1, ops[1]);
    var s3 := Step(s2, ops[2]);
    var s4 := Step(s3, ops[3]);
    assert ops[1..][1..] == ops[2..] && ops[2..][1..] == ops[3..] && ops[3..][1..] == [];
    assert Run(s3, ops[3..]) == s4 && IsRun(s3, ops[3..]);
    assert Run(s2, ops[2..]) == s4 && IsRun(s2, ops[2..]);
    assert Run(s1, ops[1..]) == s4 && IsRun(s1, ops[1..]);
    assert "c" in Of(s3.accounts, "a") && s3.conns["c"].account == "b";
    OfDrop(s3.accounts, "b", "c", "a");
  }

  // ---------------------------------------------------------------- per-IP counts

  /** The connections with a host, given the hosts of all. */
  ghost function At(hosts: map<Id, string>, h: string): set<Id>
  {
    set id | id in hosts && hosts[id] == h
  }

  /** The counts are the numbers of connections per host; the empty host is not counted. */
  ghost predicate Tally(ips: map<string, nat>, hosts: map<Id, string>)
  {
    forall h :: h != "" ==> Cnt(ips, h) == |At(hosts, h)|
  }

  /** Counting a host up adds one to it and nothing to any other host; the empty
      host is not counted, and all kept counts stay positive. */
  lemma CntInc(ips: map<string, nat>, g: string, h: string)
    ensures h != "" ==> Cnt(IncIp(ips, g), h) == Cnt(ips, h) + if g == h then 1 else 0
    ensures Positive(ips) ==> Positive(IncIp(ips, g))
  {
  }

  /** Counting a host down takes one from it, but not below zero, and nothing from
      any other host; a count of zero is not kept. */
  lemma CntDec(ips: map<string, nat>, g: string, h: string)
    ensures h != "" ==> Cnt(DecIp(ips, g), h) == if g == h && Cnt(ips, h) > 0 then Cnt(ips, h) - 1 else Cnt(ips, h)
    ensures Positive(ips) ==> Positive(DecIp(ips, g))
  {
  }

  lemma AtUpdate(hosts: map<Id, string>, id: Id, g: string, h: string)
    ensures |At(hosts[id := g], h)| == |At(hosts, h) - {id}| + if g == h then 1 else 0
  {
    if g == h {
      assert At(hosts[id := g], h) == (At(hosts, h) - {id}) + {id};
    } else {
      assert At(hosts[id := g], h) == At(hosts, h) - {id};
    }
  }

  lemma AtWithout(hosts: map<Id, string>, id: Id, h: string)
    ensures At(hosts - {id}, h) == At(hosts, h) - {id}
    ensures |At(hosts, h) - {id}| == |At(hosts, h)| - if id in hosts && hosts[id] == h then 1 else 0
  {
    if !(id in hosts && hosts[id] == h) {
      assert At(hosts, h) - {id} == At(hosts, h);
    }
  }

  lemma TallyUp(ips: map<string, nat>, hosts: map<Id, string>, id: Id, g: string)
    requires Tally(ips, hosts) && id !in hosts
    ensures Tally(IncIp(ips, g), hosts[id := g])
  {
    hide IncIp, Cnt, At;
    forall h | h != "" ensures Cnt(IncIp(ips, g), h) == |At(hosts[id := g], h)| {
      CntInc(ips, g, h);
      AtUpdate(hosts, id, g, h);
      AtWithout(hosts, id, h);
    }
  }

  /** Moving a connection from its host to another. */
  lemma TallyMove(ips: map<string, nat>, hosts: map<Id, string>, id: Id, g: string)
    requires Tally(ips, hosts) && id in hosts
    ensures Tally(IncIp(DecIp(ips, hosts[id]), g), hosts[id := g])
  {
    hide IncIp, DecIp, Cnt, At;
    forall h | h != "" ensures Cnt(IncIp(DecIp(ips, hosts[id]), g), h) == |At(hosts[id := g], h)| {
      CntDec(ips, hosts[id], h);
      CntInc(DecIp(ips, hosts[id]), g, h);
      AtUpdate(hosts, id, g, h);
      AtWithout(hosts, id, h);
    }
  }

  /** A departing connection must take its own host from the counts. */
  lemma TallyDown(ips: map<string, nat>, hosts: map<Id, string>, id: Id, g: string)
    requires Tally(ips, hosts) && id in hosts
    ensures Tally(DecIp(ips, g), hosts - {id}) <==> g == hosts[id] || (hosts[id] == "" && Cnt(ips, g) == 0)
  {
    hide DecIp, At;
    var from := hosts[id];
    if g == from || (from == "" && Cnt(ips, g) == 0) {
      forall h | h != "" ensures Cnt(DecIp(ips, g), h) == |At(hosts - {id}, h)| {
        CntDec(ips, g, h);
        AtWithout(hosts, id, h);
      }
    } else {
      var h := if from != "" then from else g;
      NoEmptyCount(ips, g);
      CntDec(ips, g, h);
      AtWithout(hosts, id, h);
      assert Cnt(DecIp(ips, g), h) != |At(hosts - {id}, h)|;
    }
  }

  lemma NoEmptyCount(ips: map<string, nat>, g: string)
    ensures g == "" ==> DecIp(ips, g) == ips
  {
  }

  // ------------------------------ by the host of the peer

  ghost function Peers(conns: map<Id, Conn>): map<Id, string>
  {
    map id | id in conns :: RemoteHost(conns[id])
  }

  /** The per-IP counts are right: they are the live connections by peer host. */
  ghost predicate CountsRight(m: Manager)
  {
    Tally(m.ips, Peers(m.conns))
  }

  /** What a removal takes from the counts is the peer host. */
  predicate Removable(c: Conn)
  {
    Host(c.addr) == RemoteHost(c)
  }

  lemma AddKeepsCounts(m: Manager, id: Id, user: string, addr: string)
    requires CountsRight(m) && id !in m.conns
    ensures CountsRight(Add(m, id, user, addr))
  {
    hide Host, Tally;
    var t := Add(m, id, user, addr);
    TallyUp(m.ips, Peers(m.conns), id, Host(addr));
    assert Peers(t.conns) == Peers(m.conns)[id := Host(addr)];
  }

  /** Replacing a peer address always keeps the counts right. */
  lemma UpdateIpKeepsCounts(m: Manager, id: Id, ip: string)
    requires CountsRight(m)
    ensures CountsRight(UpdateIp(m, id, ip).0)
  {
    hide Host, WithHost, Tally, IncIp, DecIp;
    var t := UpdateIp(m, id, ip).0;
    if id in m.conns && ip != "" && RemoteHost(m.conns[id]) != ip {
      TallyMove(m.ips, Peers(m.conns), id, ip);
      assert Peers(t.conns) == Peers(m.conns)[id := ip];
    } else {
      assert Peers(t.conns) == Peers(m.conns);
    }
  }

  /** Removing a connection keeps the counts right if and only if the host of its
      address is its peer host, or it has no peer host and takes nothing. */
  lemma RemoveKeepsCounts(m: Manager, id: Id)
    requires CountsRight(m) && id in m.conns
    ensures CountsRight(Remove(m, id)) <==>
              Removable(m.conns[id]) || (RemoteHost(m.conns[id]) == "" && Cnt(m.ips, Host(m.conns[id].addr)) == 0)
  {
    hide Host, RemoteHost, Tally, DecIp, DropUser, DropAccount, Cnt;
    TallyDown(m.ips, Peers(m.conns), id, Host(m.conns[id].addr));
    assert Peers(Remove(m, id).conns) == Peers(m.conns) - {id};
  }

  /** A connection whose address was replaced can be removed without harm if and
      only if the address was rewritable. */
  lemma ReplaceThenRemove(m: Manager, id: Id, ip: string)
    requires CountsRight(m) && Relocates(m, DoUpdateIp(id, ip))
    ensures CountsRight(Remove(UpdateIp(m, id, ip).0, id)) <==> Rewritable(m.conns[id].addr, ip)
  {
    hide Host, WithHost, Tally, IncIp, DecIp, DropUser, DropAccount, Rewritable, Cnt;
    UpdateIpKeepsCounts(m, id, ip);
    RemoveKeepsCounts(UpdateIp(m, id, ip).0, id);
    RewriteExactly(m.conns[id].addr, ip);
  }

  /** Otherwise the replacement stays counted once too often when the connection
      is gone. */
  lemma UnrewritableLeaks(m: Manager, id: Id, ip: string)
    requires CountsRight(m) && Relocates(m, DoUpdateIp(id, ip)) && !Rewritable(m.conns[id].addr, ip)
    ensures var t := Remove(UpdateIp(m, id, ip).0, id);
            id !in t.conns && Cnt(t.ips, ip) == |At(Peers(t.conns), ip)| + 1
  {
    hide Host, WithHost, IncIp, DecIp, Cnt, At, Rewritable, DropUser, DropAccount;
    var t := UpdateIp(m, id, ip).0;
    UpdateIpKeepsCounts(m, id, ip);
    RewriteExactly(m.conns[id].addr, ip);
    CntDec(t.ips, Host(t.conns[id].addr), ip);
    AtWithout(Peers(t.conns), id, ip);
    assert Peers(Remove(t, id).conns) == Peers(t.conns) - {id};
  }

  /** A client behind a proxy, reached over IPv6: the counts are right until it is
      removed, and then one is left behind. */
  lemma Ipv6PeerLeaks()
    ensures var ops := [DoAdd("c", "u", "[::1]:80"), DoUpdateIp("c", "10.0.0.1"), DoRemove("c")];
            var t := Run(EMPTY, ops);
            CountsRight(Run(EMPTY, ops[..2])) && t.conns == map[] && Cnt(t.ips, "10.0.0.1") == 1
  {
    var ops := [DoAdd("c", "u", "[::1]:80"), DoUpdateIp("c", "10.0.0.1"), DoRemove("c")];
    hide SplitHostPort, IncIp, DecIp, Cnt, At, Rewritable, DropUser, DropAccount, WithHost, Tally;
    var m := Add(EMPTY, "c", "u", "[::1]:80");
    var s := UpdateIp(m, "c", "10.0.0.1").0;
    var t := Remove(s, "c");
    EmptyIps();
    AddKeepsCounts(EMPTY, "c", "u", "[::1]:80");
    TwoColons("[::1]:80", 1, 2, "10.0.0.1");
    HostOfBracketedAddr("::1", "80");
    assert "[" + "::1" + "]:" + "80" == "[::1]:80" && |"::1"| != |"10.0.0.1"|;
    UpdateIpKeepsCounts(m, "c", "10.0.0.1");
    UnrewritableLeaks(m, "c", "10.0.0.1");
    assert t.conns == map[];
    NobodyAt(Peers(t.conns), "10.0.0.1");
    assert ops[1..][1..] == ops[2..] && ops[2..][1..] == [];
    assert Run(s, ops[2..]) == t;
    assert Run(m, ops[1..]) == t;
    assert ops[..2][1..] == [ops[1]] && [ops[1]][1..] == [];
    assert Run(m, [ops[1]]) == s;
  }

  lemma NobodyAt(hosts: map<Id, string>, h: string)
    requires hosts == map[]
    ensures At(hosts, h) == {}
  {
  }

  lemma EmptyIps()
    ensures CountsRight(EMPTY) && HostsAgree(EMPTY)
  {
    forall h ensures At(Peers(EMPTY.conns), h) == {} {}
  }

  /** Every connection removed along the run takes its peer host from the counts. */
  ghost predicate AllRemovable(m: Manager, ops: seq<Op>)
    decreases |ops|
  {
    ops != [] ==>
      && (ops[0].DoRemove? && ops[0].id in m.conns ==> Removable(m.conns[ops[0].id]))
      && AllRemovable(Step(m, ops[0]), ops[1..])
  }

  lemma SamePeers(m: Manager, t: Manager)
    requires CountsRight(m) && t.ips == m.ips && Peers(t.conns) == Peers(m.conns)
    ensures CountsRight(t)
  {
  }

  lemma StepCountsRight(m: Manager, op: Op)
    requires CountsRight(m) && Enabled(m, op) && (op.DoRemove? && op.id in m.conns ==> Removable(m.conns[op.id]))
    ensures CountsRight(Step(m, op))
  {
    hide Host, WithHost, IncIp, DecIp, Cnt, DropUser, DropAccount, CountsRight, Removable;
    match op
    case DoAdd(id, user, addr) => AddKeepsCounts(m, id, user, addr);
    case DoRemove(id) => if id in m.conns { RemoveKeepsCounts(m, id); }
    case DoUpdateIp(id, ip) => UpdateIpKeepsCounts(m, id, ip);
    case DoSetUser(id, user) => SamePeers(m, Step(m, op));
    case DoSetAccount(id, account) => SamePeers(m, Step(m, op));
  }

  lemma {:induction false} RunCountsRight(m: Manager, ops: seq<Op>)
    requires CountsRight(m) && IsRun(m, ops) && AllRemovable(m, ops)
    ensures CountsRight(Run(m, ops))
    decreases |ops|
  {
    hide CountsRight, Step, Removable;
    if ops != [] {
      StepCountsRight(m, ops[0]);
      RunCountsRight(Step(m, ops[0]), ops[1..]);
    }
  }

  /** After every run whose removals take the peer host, whatever the addresses,
      each host is counted exactly as often as live connections have it. */
  lemma CountsRightAfter(ops: seq<Op>)
    requires IsRun(EMPTY, ops) && AllRemovable(EMPTY, ops)
    ensures var m := Run(EMPTY, ops); forall h :: h != "" ==> Cnt(m.ips, h) == |At(Peers(m.conns), h)|
  {
    hide Run, IsRun, AllRemovable, Cnt, At, Peers;
    EmptyIps();
    RunCountsRight(EMPTY, ops);
  }

  // ------------------------------ runs that replace only rewritable addresses

  ghost predicate HostsAgree(m: Manager)
  {
    forall id :: id in m.conns ==> Removable(m.conns[id])
  }

  /** Replaces the host of a live connection by another one. */
  ghost predicate Relocates(m: Manager, op: Op)
  {
    op.DoUpdateIp? && op.id in m.conns && op.ip != "" && RemoteHost(m.conns[op.id]) != op.ip
  }

  /** Every address replaced along the run is rewritable at that moment. */
  ghost predicate AllRewritable(m: Manager, ops: seq<Op>)
    decreases |ops|
  {
    ops != [] ==>
      && (Relocates(m, ops[0]) ==> Rewritable(m.conns[ops[0].id].addr, ops[0].ip))
      && AllRewritable(Step(m, ops[0]), ops[1..])
  }

  lemma StepHosts(m: Manager, op: Op)
    requires HostsAgree(m) && (Relocates(m, op) ==> Rewritable(m.conns[op.id].addr, op.ip))
    ensures HostsAgree(Step(m, op))
  {
    hide Host, WithHost, IncIp, DecIp, Rewritable, DropUser, DropAccount;
    if Relocates(m, op) {
      RewriteExactly(m.conns[op.id].addr, op.ip);
    }
  }

  lemma {:induction false} RewritableIsRemovable(m: Manager, ops: seq<Op>)
    requires HostsAgree(m) && AllRewritable(m, ops)
    ensures AllRemovable(m, ops) && HostsAgree(Run(m, ops))
    decreases |ops|
  {
    hide Step, Removable, Rewritable;
    if ops != [] {
      StepHosts(m, ops[0]);
      RewritableIsRemovable(Step(m, ops[0]), ops[1..]);
    }
  }

  /** Runs over plain "host:port" addresses and plain replacement addresses. */
  ghost predicate PlainOps(ops: seq<Op>)
  {
    forall i :: 0 <= i < |ops| ==>
      (ops[i].DoAdd? ==> PlainAddr(ops[i].addr)) && (ops[i].DoUpdateIp? ==> Plain(ops[i].ip))
  }

  ghost predicate PlainConns(m: Manager)
  {
    forall id :: id in m.conns ==> PlainAddr(m.conns[id].addr)
  }

  lemma {:induction false} PlainIsRewritable(m: Manager, ops: seq<Op>)
    requires PlainConns(m) && PlainOps(ops)
    ensures AllRewritable(m, ops)
    decreases |ops|
  {
    hide PlainAddr, Plain, Rewritable, Host, WithHost;
    if ops != [] {
      var op := ops[0];
      if op.DoUpdateIp? && op.id in m.conns {
        PlainRewrites(m.conns[op.id].addr, op.ip);
      }
      assert PlainConns(Step(m, op));
      assert PlainOps(ops[1..]) by {
        forall i | 0 <= i < |ops[1..]| ensures ops[1..][i] == ops[i + 1] {}
      }
      PlainIsRewritable(Step(m, op), ops[1..]);
    }
  }

  /** With colon-free hosts the per-IP counts are right after every run. */
  lemma PlainCountsExact(ops: seq<Op>)
    requires IsRun(EMPTY, ops) && PlainOps(ops)
    ensures var m := Run(EMPTY, ops); CountsRight(m) && HostsAgree(m)
  {
    hide Run, IsRun, AllRemovable, AllRewritable, CountsRight, HostsAgree, PlainOps;
    EmptyIps();
    PlainIsRewritable(EMPTY, ops);
    RewritableIsRemovable(EMPTY, ops);
    RunCountsRight(EMPTY, ops);
  }

  // ------------------------------ what removals will take away

  ghost function Debits(conns: map<Id, Conn>): map<Id, string>
  {
    map id | id in conns :: Host(conns[id].addr)
  }

  /** Removing all connections would take every count away. */
  ghost predicate Covered(m: Manager)
  {
    forall h :: h != "" ==> Cnt(m.ips, h) <= |At(Debits(m.conns), h)|
  }

  /** No removal makes or breaks that. */
  lemma RemoveCovered(m: Manager, id: Id)
    ensures Covered(Remove(m, id)) <==> Covered(m)
  {
    hide Host, DecIp, Cnt, At, DropUser, DropAccount;
    if id in m.conns {
      var t, g := Remove(m, id), Host(m.conns[id].addr);
      assert Debits(t.conns) == Debits(m.conns) - {id};
      forall h | h != ""
        ensures Cnt(t.ips, h) <= |At(Debits(t.conns), h)| <==> Cnt(m.ips, h) <= |At(Debits(m.conns), h)|
      {
        CntDec(m.ips, g, h);
        AtWithout(Debits(m.conns), id, h);
      }
    }
  }

  /** Right counts are covered while every connection can be removed without harm. */
  lemma RightIsCovered(m: Manager)
    requires CountsRight(m) && HostsAgree(m)
    ensures Covered(m)
  {
    hide Host, RemoteHost, Cnt, At;
    assert Peers(m.conns) == Debits(m.conns);
  }

  /** With no connection left, no user is left, and no IP if and only if the counts
      were covered. */
  lemma NothingLeft(m: Manager)
    requires Inv(m) && m.conns.Keys == {}
    ensures m.users.Keys == {} && m.count == 0 && m.active == 0
    ensures m.ips.Keys == {} <==> Covered(m)
  {
    assert |m.conns| == |m.conns.Keys|;
    forall h ensures At(Debits(m.conns), h) == {} {}
    if Covered(m) {
      forall h ensures h !in m.ips {
        assert h != "" ==> Cnt(m.ips, h) <= |At(Debits(m.conns), h)|;
      }
    }
  }

  // ---------------------------------------------------------------- the objects

  class Connection {
    const id: Id
    var user: string
    var account: string
    var addr: string
    var host: Option<string>

    ghost function View(): Conn
      reads this
    {
      Conn(user, account, addr, host)
    }

    constructor (id: Id, user: string, addr: string)
      ensures this.id == id && View() == Conn(user, "", addr, None)
    {
      this.id, this.user, this.addr := id, user, addr;
      account, host := "", None;
    }

    /** The host of the peer, cached by the first call. */
    method PeerHost() returns (h: string)
      modifies this`host
      ensures h == RemoteHost(old(View())) && View() == old(View()).(host := Some(h))
    {
      if host.Some? {
        return host.value;
      }
      var split := SplitHostPort(addr);
      h := if split.Some? then split.value else addr;
      host := Some(h);
    }

    method SetRemoteHost(h: string)
      modifies this`host, this`addr
      ensures View() == Relocated(old(View()), h)
    {
      host := Some(h);
      if addr != "" {
        var i := IndexOf(addr, ':');
        if i >= 0 {
          addr := h + ":" + addr[i + 1..];
        } else {
          addr := h;
        }
      }
    }
  }

  method IncrementIp(ips: map<string, nat>, ip: string) returns (r: map<string, nat>)
    ensures r == IncIp(ips, ip)
  {
    if ip == "" {
      return ips;
    }
    return ips[ip := (if ip in ips then ips[ip] else 0) + 1];
  }

  method DecrementIp(ips: map<string, nat>, ip: string) returns (r: map<string, nat>)
    ensures r == DecIp(ips, ip)
  {
    if ip == "" {
      return ips;
    }
    var n := if ip in ips then ips[ip] else 0;
    if n <= 1 {
      return ips - {ip};
    }
    return ips[ip := n - 1];
  }

  /** Compare-and-delete on the user index. */
  method DeleteUserIf(users: map<string, Id>, u: string, id: Id) returns (r: map<string, Id>)
    ensures r == DropUser(users, u, id)
  {
    if u in users && users[u] == id {
      return users - {u};
    }
    return users;
  }

  method RemoveAccountConnection(accounts: map<string, set<Id>>, a: string, id: Id) returns (r: map<string, set<Id>>)
    requires a != ""
    ensures r == DropAccount(accounts, a, id)
  {
    if a !in accounts {
      return accounts;
    }
    var rest := accounts[a] - {id};
    if |rest| == 0 {
      return accounts - {a};
    }
    return accounts[a := rest];
  }

  ghost function Views(conns: map<Id, Connection>): map<Id, Conn>
    reads conns.Values
  {
    map id | id in conns :: conns[id].View()
  }

  lemma ViewsAdd(conns: map<Id, Connection>, id: Id, c: Connection)
    ensures Views(conns[id := c]) == Views(conns)[id := c.View()]
    ensures Views(conns).Keys == conns.Keys
  {
  }

  lemma ViewsRemove(conns: map<Id, Connection>, id: Id)
    ensures Views(conns - {id}) == Views(conns) - {id}
    ensures Views(conns).Keys == conns.Keys
    ensures id in conns ==> Views(conns)[id] == conns[id].View()
  {
  }

  class ConnectionManager {
    var conns: map<Id, Connection>
    var users: map<string, Id>
    var accounts: map<string, set<Id>>
    var ips: map<string, nat>
    var count: int
    var total: int
    var active: int
    var closed: int

    ghost function View(): Manager
      reads this, conns.Values
    {
      Manager(Views(conns), users, accounts, ips, count, total, active, closed)
    }

    ghost predicate Valid()
      reads this, conns.Values
    {
      && (forall id :: id in conns ==> conns[id].id == id)
      && Inv(View())
    }

    constructor ()
      ensures Valid() && View() == EMPTY
    {
      conns, users, accounts, ips := map[], map[], map[], map[];
      count, total, active, closed := 0, 0, 0, 0;
    }

    /** Enters a new connection into the indexes and counters. */
    method Index(id: Id, user: string, addr: string)
      modifies this`users, this`ips, this`count, this`total, this`active
      ensures users == old(users)[user := id] && ips == IncIp(old(ips), Host(addr))
      ensures (count, total, active) == (old(count) + 1, old(total) + 1, old(active) + 1)
    {
      users := users[user := id];
      count, total, active := count + 1, total + 1, active + 1;
      var counts := IncrementIp(ips, Host(addr));
      ips := counts;
    }

    method AddConnection(id: Id, user: string, addr: string)
      requires Valid() && id !in conns
      modifies this
      ensures Valid() && View() == Add(old(View()), id, user, addr)
      ensures conns.Keys == old(conns).Keys + {id} && fresh(conns[id])
    {
      hide Inv, Host, IncIp, Views;
      ViewsRemove(conns, id);
      AddKeeps(View(), id, user, addr);
      var c := new Connection(id, user, addr);
      conns := conns[id := c];
      ViewsAdd(old(conns), id, c);
      assert Views(conns) == old(Views(conns))[id := c.View()];
      Index(id, user, addr);
    }

    /** Overrides a connection's host unless it already has it; returns the former one. */
    method Relocate(c: Connection, ip: string) returns (from: string)
      requires c.id in conns && conns[c.id] == c && forall id :: id in conns ==> conns[id].id == id
      modifies c
      ensures from == RemoteHost(old(c.View()))
      ensures Views(conns) == old(Views(conns))[c.id := if from == ip then old(c.View()).(host := Some(from))
                                                        else Relocated(old(c.View()), ip)]
    {
      hide WithHost, Host;
      from := c.PeerHost();
      if from != ip {
        c.SetRemoteHost(ip);
      }
    }

    method UpdateConnectionIp(id: Id, ip: string) returns (changed: bool)
      requires Valid()
      modifies this, conns.Values
      ensures Valid() && (View(), changed) == UpdateIp(old(View()), id, ip)
      ensures conns == old(conns)
    {
      hide Inv, Host, WithHost, IncIp, DecIp, RemoteHost, Views;
      UpdateIpKeeps(View(), id, ip);
      ViewsRemove(conns, id);
      if id !in conns || ip == "" {
        return false;
      }
      var from := Relocate(conns[id], ip);
      if from == ip {
        return false;
      }
      var counts := DecrementIp(ips, from);
      counts := IncrementIp(counts, ip);
      ips := counts;
      return true;
    }

    /** Takes a removed connection out of the indexes and counters. */
    method Unindex(id: Id, c: Connection)
      modifies this`users, this`accounts, this`ips, this`count, this`active, this`closed
      ensures users == DropUser(old(users), c.user, id) && accounts == DropAccount(old(accounts), c.account, id)
      ensures ips == DecIp(old(ips), Host(c.addr))
      ensures (count, active, closed) == (old(count) - 1, old(active) - 1, old(closed) + 1)
    {
      var userIndex := DeleteUserIf(users, c.user, id);
      users := userIndex;
      if c.account != "" {
        var accountIndex := RemoveAccountConnection(accounts, c.account, id);
        accounts := accountIndex;
      }
      var counts := DecrementIp(ips, Host(c.addr));
      ips := counts;
      count, active, closed := count - 1, active - 1, closed + 1;
    }

    method RemoveConnection(id: Id)
      requires Valid()
      modifies this
      ensures Valid() && View() == Remove(old(View()), id)
      ensures conns == old(conns) - {id}
    {
      hide Inv, Host, DecIp, DropUser, DropAccount, Views;
      ViewsRemove(conns, id);
      RemoveKeeps(View(), id);
      if id !in conns {
        return;
      }
      var c := conns[id];
      conns := conns - {id};
      assert Views(conns) == old(Views(conns)) - {id};
      Unindex(id, c);
    }

    method SetConnectionAccount(id: Id, account: string)
      requires Valid()
      modifies this, conns.Values
      ensures Valid() && View() == SetAccount(old(View()), id, account)
      ensures conns == old(conns)
    {
      hide Inv;
      SetAccountKeeps(View(), id, account);
      if account == "" || id !in conns {
        return;
      }
      var c := conns[id];
      c.account := account;
      accounts := accounts[account := (if account in accounts then accounts[account] else {}) + {id}];
      assert Views(conns) == old(Views(conns))[id := c.View()];
    }

    method UpdateConnectionUser(id: Id, user: string)
      requires Valid()
      modifies this, conns.Values
      ensures Valid() && View() == SetUser(old(View()), id, user)
      ensures conns == old(conns)
    {
      hide Inv, DropUser;
      SetUserKeeps(View(), id, user);
      if id !in conns {
        return;
      }
      var c := conns[id];
      var was := c.user;
      c.user := user;
      var userIndex := DeleteUserIf(users, was, id);
      users := userIndex[user := id];
      assert Views(conns) == old(Views(conns))[id := c.View()];
    }

    /** Removes every connection, in any order. Nothing is left in the registry or
        the user index, and nothing in the per-IP map if and only if removals cover
        the counts. */
    method CloseAllConnections()
      requires Valid()
      modifies this
      ensures Valid() && conns == map[] && users.Keys == {}
      ensures ips.Keys == {} <==> old(Covered(View()))
      ensures old(CountsRight(View()) && HostsAgree(View())) ==> ips.Keys == {}
      ensures count == 0 && active == 0 && total == old(total) && closed == old(total)
    {
      hide Inv, Host, DecIp, DropUser, DropAccount, Covered, CountsRight, HostsAgree;
      if CountsRight(View()) && HostsAgree(View()) {
        RightIsCovered(View());
      }
      while conns.Keys != {}
        invariant Valid() && conns.Keys <= old(conns).Keys
        invariant old(Covered(View())) <==> Covered(View())
        invariant total == old(total)
        decreases conns.Keys
      {
        var id :| id in conns.Keys;
        RemoveCovered(View(), id);
        RemoveConnection(conns[id].id);
      }
      NothingLeft(View());
      TotalIs(View());
    }
  }

  lemma TotalIs(m: Manager)
    requires Inv(m)
    ensures m.total == m.active + m.closed
  {
  }
}
