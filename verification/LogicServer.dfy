/** The logic server's bookkeeping: which stream serves a session, who is logged
    in on it, and which push groups it is in. Two of the three relations are kept
    twice, once per direction. */
module LogicServer {

  type Stream = nat
  type Groups = map<string, set<string>>

  datatype Server = Server(
    streamSeq: nat,
    bound: map<Stream, set<string>>,
    sessions: map<string, Stream>,
    userSessions: map<string, string>,
    sessionUsers: map<string, string>,
    groups: Groups,
    sessionGroups: Groups)

  // ---------------------------------------------------------------- users

  ghost predicate Inverse(us: map<string, string>, su: map<string, string>)
  {
    && (forall u :: u in us ==> us[u] in su && su[us[u]] == u)
    && (forall s :: s in su ==> su[s] in us && us[su[s]] == s)
  }

  /** One login: the user and the session leave their former partners. */
  function Rebind(m: map<string, string>, key: string, value: string): map<string, string>
  {
    (map k | k in m && m[k] != value :: m[k])[key := value]
  }

  /** Logs out the sessions of a set. */
  function LogOut(us: map<string, string>, gone: set<string>): map<string, string>
  {
    map u | u in us && us[u] !in gone :: us[u]
  }

  lemma RebindInverse(us: map<string, string>, su: map<string, string>, u: string, s: string)
    requires Inverse(us, su)
    ensures Inverse(Rebind(us, u, s), Rebind(su, s, u))
  {
  }

  lemma LogOutInverse(us: map<string, string>, su: map<string, string>, gone: set<string>)
    requires Inverse(us, su)
    ensures Inverse(LogOut(us, gone), su - gone)
  {
  }

  lemma UnregisterInverse(us: map<string, string>, su: map<string, string>, u: string)
    requires Inverse(us, su)
    ensures u in us ==> Inverse(us - {u}, su - {us[u]})
    ensures u !in us ==> us - {u} == us
  {
  }

  // ---------------------------------------------------------------- groups

  function Of(g: Groups, k: string): set<string>
  {
    if k in g then g[k] else {}
  }

  function Join(g: Groups, k: string, x: string): Groups
  {
    g[k := Of(g, k) + {x}]
  }

  function Leave(g: Groups, k: string, x: string): Groups
  {
    if Of(g, k) - {x} == {} then g - {k} else g[k := Of(g, k) - {x}]
  }

  /** Takes the members of a set out of every group. */
  function Expel(g: Groups, gone: set<string>): Groups
  {
    map k | k in g && g[k] - gone != {} :: g[k] - gone
  }

  /** Group members and session memberships are one relation, and nothing empty is kept. */
  ghost predicate Converse(g: Groups, sg: Groups)
  {
    && NoneEmpty(g) && NoneEmpty(sg)
    && forall k, x :: x in Of(g, k) <==> k in Of(sg, x)
  }

  ghost predicate NoneEmpty(g: Groups)
  {
    forall k :: k in g ==> g[k] != {}
  }

  lemma JoinConverse(g: Groups, sg: Groups, k: string, x: string)
    requires Converse(g, sg)
    ensures Converse(Join(g, k, x), Join(sg, x, k))
  {
    forall i, j ensures j in Of(Join(g, k, x), i) <==> i in Of(Join(sg, x, k), j) {
      assert j in Of(g, i) <==> i in Of(sg, j);
    }
  }

  lemma LeaveConverse(g: Groups, sg: Groups, k: string, x: string)
    requires Converse(g, sg)
    ensures Converse(Leave(g, k, x), Leave(sg, x, k))
  {
    forall i, j ensures j in Of(Leave(g, k, x), i) <==> i in Of(Leave(sg, x, k), j) {
      assert j in Of(g, i) <==> i in Of(sg, j);
      OfLeave(g, k, x, i);
      OfLeave(sg, x, k, j);
    }
  }

  lemma OfLeave(g: Groups, k: string, x: string, i: string)
    ensures Of(Leave(g, k, x), i) == if i == k then Of(g, i) - {x} else Of(g, i)
  {
  }

  lemma ExpelConverse(g: Groups, sg: Groups, gone: set<string>)
    requires Converse(g, sg)
    ensures Converse(Expel(g, gone), sg - gone)
  {
    forall i, j ensures j in Of(Expel(g, gone), i) <==> i in Of(sg - gone, j) {
      assert j in Of(g, i) <==> i in Of(sg, j);
      assert Of(Expel(g, gone), i) == Of(g, i) - gone;
    }
  }

  // ---------------------------------------------------------------- operations

  function RegisterUser(s: Server, user: string, sid: string): Server
  {
    if user == "" || sid == "" then s
    else s.(userSessions := Rebind(s.userSessions, user, sid), sessionUsers := Rebind(s.sessionUsers, sid, user))
  }

  function UnregisterUser(s: Server, user: string): Server
  {
    if user in s.userSessions then
      s.(userSessions := s.userSessions - {user}, sessionUsers := s.sessionUsers - {s.userSessions[user]})
    else s
  }

  function JoinGroup(s: Server, gid: string, sid: string): Server
  {
    if gid == "" || sid == "" then s
    else s.(groups := Join(s.groups, gid, sid), sessionGroups := Join(s.sessionGroups, sid, gid))
  }

  function LeaveGroup(s: Server, gid: string, sid: string): Server
  {
    s.(groups := Leave(s.groups, gid, sid), sessionGroups := Leave(s.sessionGroups, sid, gid))
  }

  function LeaveAllGroups(s: Server, gone: set<string>): Server
  {
    s.(groups := Expel(s.groups, gone), sessionGroups := s.sessionGroups - gone)
  }

  function Offline(s: Server, sid: string, user: string): Server
  {
    var t := LeaveAllGroups(s.(sessions := s.sessions - {sid}), {sid});
    if user != "" then UnregisterUser(t, user)
    else t.(userSessions := LogOut(t.userSessions, {sid}), sessionUsers := t.sessionUsers - {sid})
  }

  function OpenStream(s: Server): Server
  {
    s.(streamSeq := s.streamSeq + 1, bound := s.bound[s.streamSeq + 1 := {}])
  }

  /** The bookkeeping done for one upstream message of a stream. */
  function Process(s: Server, c: Stream, sid: string, user: string): Server
    requires c in s.bound
  {
    if sid == "" then s
    else RegisterUser(s.(sessions := s.sessions[sid := c], bound := s.bound[c := s.bound[c] + {sid}]), user, sid)
  }

  /** What the end of a stream leaves: its sessions are unrouted unless another
      stream took them over, and all of them lose their user and their groups. */
  function Cleanup(s: Server, c: Stream): Server
    requires c in s.bound
  {
    var gone := s.bound[c];
    LeaveAllGroups(s, gone).(
      bound := s.bound - {c},
      sessions := map sid | sid in s.sessions && !(sid in gone && s.sessions[sid] == c) :: s.sessions[sid],
      userSessions := LogOut(s.userSessions, gone),
      sessionUsers := s.sessionUsers - gone)
  }

  // ---------------------------------------------------------------- invariant

  ghost predicate Routed(s: Server)
  {
    && (forall sid :: sid in s.sessions ==> s.sessions[sid] in s.bound && sid in s.bound[s.sessions[sid]])
    && (forall c :: c in s.bound ==> c <= s.streamSeq)
  }

  ghost predicate Inv(s: Server)
  {
    && Inverse(s.userSessions, s.sessionUsers)
    && Converse(s.groups, s.sessionGroups)
    && Routed(s)
  }

  datatype Op =
    | DoOpen
    | DoProcess(stream: Stream, sid: string, user: string)
    | DoCleanup(stream: Stream)
    | DoRegister(user: string, sid: string)
    | DoUnregister(user: string)
    | DoJoin(gid: string, sid: string)
    | DoLeave(gid: string, sid: string)
    | DoOffline(sid: string, user: string)

  /** One operation; a stream that is not open does nothing. */
  function Step(s: Server, op: Op): Server
  {
    match op
    case DoOpen => OpenStream(s)
    case DoProcess(c, sid, u) => if c in s.bound then Process(s, c, sid, u) else s
    case DoCleanup(c) => if c in s.bound then Cleanup(s, c) else s
    case DoRegister(u, sid) => RegisterUser(s, u, sid)
    case DoUnregister(u) => UnregisterUser(s, u)
    case DoJoin(g, sid) => JoinGroup(s, g, sid)
    case DoLeave(g, sid) => LeaveGroup(s, g, sid)
    case DoOffline(sid, u) => Offline(s, sid, u)
  }

  lemma RegisterKeeps(s: Server, user: string, sid: string)
    requires Inv(s)
    ensures Inv(RegisterUser(s, user, sid))
  {
    hide Inverse, Converse, Rebind;
    RebindInverse(s.userSessions, s.sessionUsers, user, sid);
  }

  lemma UnregisterKeeps(s: Server, user: string)
    requires Inv(s)
    ensures Inv(UnregisterUser(s, user))
  {
    hide Inverse, Converse;
    UnregisterInverse(s.userSessions, s.sessionUsers, user);
  }

  lemma OfflineKeeps(s: Server, sid: string, user: string)
    requires Inv(s)
    ensures Inv(Offline(s, sid, user))
  {
    hide Inverse, Converse, Expel, LogOut, UnregisterUser;
    var t := LeaveAllGroups(s.(sessions := s.sessions - {sid}), {sid});
    ExpelConverse(s.groups, s.sessionGroups, {sid});
    if user != "" {
      UnregisterKeeps(t, user);
    } else {
      LogOutInverse(t.userSessions, t.sessionUsers, {sid});
    }
  }

  lemma ProcessKeeps(s: Server, c: Stream, sid: string, user: string)
    requires Inv(s) && c in s.bound
    ensures Inv(Process(s, c, sid, user))
  {
    hide Inverse, Converse, RegisterUser;
    if sid != "" {
      RegisterKeeps(s.(sessions := s.sessions[sid := c], bound := s.bound[c := s.bound[c] + {sid}]), user, sid);
    }
  }

  lemma CleanupKeeps(s: Server, c: Stream)
    requires Inv(s) && c in s.bound
    ensures Inv(Cleanup(s, c))
  {
    hide Inverse, Converse, Expel, LogOut;
    ExpelConverse(s.groups, s.sessionGroups, s.bound[c]);
    LogOutInverse(s.userSessions, s.sessionUsers, s.bound[c]);
  }

  lemma StepKeeps(s: Server, op: Op)
    requires Inv(s)
    ensures Inv(Step(s, op))
  {
    hide Inverse, Converse, Expel, LogOut, Rebind, RegisterUser, UnregisterUser, Offline, Process, Cleanup, Join, Leave;
    match op
    case DoOpen =>
    case DoProcess(c, sid, u) => if c in s.bound { ProcessKeeps(s, c, sid, u); }
    case DoCleanup(c) => if c in s.bound { CleanupKeeps(s, c); }
    case DoRegister(u, sid) => RegisterKeeps(s, u, sid);
    case DoUnregister(u) => UnregisterKeeps(s, u);
    case DoJoin(g, sid) => JoinConverse(s.groups, s.sessionGroups, g, sid);
    case DoLeave(g, sid) => LeaveConverse(s.groups, s.sessionGroups, g, sid);
    case DoOffline(sid, u) => OfflineKeeps(s, sid, u);
  }

  const EMPTY := Server(0, map[], map[], map[], map[], map[], map[])

  function Run(s: Server, ops: seq<Op>): Server
    decreases |ops|
  {
    if ops == [] then s else Run(Step(s, ops[0]), ops[1..])
  }

  lemma {:induction false} RunKeeps(s: Server, ops: seq<Op>)
    requires Inv(s)
    ensures Inv(Run(s, ops))
    decreases |ops|
  {
    if ops != [] {
      StepKeeps(s, ops[0]);
      RunKeeps(Step(s, ops[0]), ops[1..]);
    }
  }

  /** In every reachable state the two user maps are inverse to each other, group
      members and memberships are one relation without empty sets, and every
      routed session is bound to the open stream it is routed to. */
  lemma Reachable(ops: seq<Op>)
    ensures var s := Run(EMPTY, ops);
            && Inverse(s.userSessions, s.sessionUsers)
            && Converse(s.groups, s.sessionGroups)
            && Routed(s)
  {
    RunKeeps(EMPTY, ops);
  }

  // ---------------------------------------------------------------- what each operation does

  function GroupsAfter(s: Server, op: Op): Groups
  {
    match op
    case DoJoin(g, sid) => if g == "" || sid == "" then s.groups else Join(s.groups, g, sid)
    case DoLeave(g, sid) => Leave(s.groups, g, sid)
    case DoOffline(sid, _) => Expel(s.groups, {sid})
    case DoCleanup(c) => if c in s.bound then Expel(s.groups, s.bound[c]) else s.groups
    case _ => s.groups
  }

  function UsersAfter(s: Server, op: Op): map<string, string>
  {
    match op
    case DoRegister(u, sid) => RegisterUser(s, u, sid).userSessions
    case DoProcess(c, sid, u) => if c in s.bound && sid != "" then RegisterUser(s, u, sid).userSessions else s.userSessions
    case DoUnregister(u) => s.userSessions - {u}
    case DoOffline(sid, u) => if u != "" then s.userSessions - {u} else LogOut(s.userSessions, {sid})
    case DoCleanup(c) => if c in s.bound then LogOut(s.userSessions, s.bound[c]) else s.userSessions
    case _ => s.userSessions
  }

  /** The part of each operation that concerns groups. */
  lemma GroupPart(s: Server, op: Op)
    ensures Step(s, op).groups == GroupsAfter(s, op)
  {
    hide Rebind, LogOut, Join, Leave, Expel;
  }

  lemma NoSuchUser(us: map<string, string>, u: string)
    ensures u !in us ==> us - {u} == us
  {
  }

  /** The part of each operation that concerns users. */
  lemma UserPart(s: Server, op: Op)
    ensures Step(s, op).userSessions == UsersAfter(s, op)
  {
    hide Rebind, LogOut, Join, Leave, Expel;
    if op.DoUnregister? || op.DoOffline? {
      NoSuchUser(s.userSessions, op.user);
    }
  }

  /** Takes a session out of a group: leaving it, going offline, or the end of a
      stream that had bound the session. */
  ghost predicate Removes(s: Server, op: Op, g: string, sid: string)
  {
    || op == DoLeave(g, sid)
    || (op.DoOffline? && op.sid == sid)
    || EndsFor(s, op, sid)
  }

  ghost predicate EndsFor(s: Server, op: Op, sid: string)
  {
    op.DoCleanup? && op.stream in s.bound && sid in s.bound[op.stream]
  }

  /** A session is in a group after an operation if and only if it has just joined,
      or was in it and was not taken out. */
  lemma MemberExactly(s: Server, op: Op, g: string, sid: string)
    requires Inv(s)
    ensures sid in Of(Step(s, op).groups, g) <==>
              || (op == DoJoin(g, sid) && g != "" && sid != "")
              || (sid in Of(s.groups, g) && !Removes(s, op, g, sid))
  {
    hide Inv, Step, Leave, Expel;
    GroupPart(s, op);
    match op
    case DoLeave(k, x) => OfLeave(s.groups, k, x, g);
    case DoCleanup(c) => if c in s.bound { OfExpel(s.groups, s.bound[c], g); }
    case DoOffline(x, u) => OfExpel(s.groups, {x}, g);
    case _ =>
  }

  lemma OfExpel(g: Groups, gone: set<string>, k: string)
    ensures Of(Expel(g, gone), k) == Of(g, k) - gone
  {
  }

  /** Logs a user in on a session. */
  ghost predicate LogsIn(s: Server, op: Op, user: string, sid: string)
  {
    && user != "" && sid != ""
    && (op == DoRegister(user, sid) || (op.DoProcess? && op.stream in s.bound && op.sid == sid && op.user == user))
  }

  /** Logs a user out of a session: the user or the session logs in elsewhere, the
      user is unregistered or named when somebody goes offline, the session goes
      offline unnamed, or a stream that had bound it ends. */
  ghost predicate LogsOut(s: Server, op: Op, user: string, sid: string)
  {
    || (exists u :: LogsIn(s, op, u, sid) && u != user)
    || (exists x :: LogsIn(s, op, user, x) && x != sid)
    || op == DoUnregister(user)
    || (op.DoOffline? && op.user == user && user != "")
    || op == DoOffline(sid, "")
    || EndsFor(s, op, sid)
  }

  /** A user is on a session after an operation if and only if it has just logged in
      there, or was there and was not logged out. */
  lemma UserExactly(s: Server, op: Op, user: string, sid: string)
    requires Inv(s)
    ensures var t := Step(s, op);
            (user in t.userSessions && t.userSessions[user] == sid) <==>
              || LogsIn(s, op, user, sid)
              || (user in s.userSessions && s.userSessions[user] == sid && !LogsOut(s, op, user, sid))
  {
    hide Step, Converse, Routed, RegisterUser;
    UserPart(s, op);
    match op
    case DoRegister(u, x) => RegisterExactly(s, op, u, x, user, sid);
    case DoProcess(c, x, u) =>
      if c in s.bound && x != "" {
        RegisterExactly(s, op, u, x, user, sid);
      }
    case DoUnregister(u) => NobodyLogsIn(s, op);
    case DoOffline(x, u) => NobodyLogsIn(s, op);
    case DoCleanup(c) => NobodyLogsIn(s, op);
    case _ => NobodyLogsIn(s, op);
  }

  lemma NobodyLogsIn(s: Server, op: Op)
    requires !op.DoRegister? && !op.DoProcess?
    ensures forall u, x :: !LogsIn(s, op, u, x)
  {
  }

  lemma RegisterExactly(s: Server, op: Op, u: string, x: string, user: string, sid: string)
    requires Inverse(s.userSessions, s.sessionUsers)
    requires op == DoRegister(u, x) || (op.DoProcess? && op.stream in s.bound && op.sid == x && op.user == u)
    ensures var m := RegisterUser(s, u, x).userSessions;
            (user in m && m[user] == sid) <==>
              || LogsIn(s, op, user, sid)
              || (user in s.userSessions && s.userSessions[user] == sid && !LogsOut(s, op, user, sid))
  {
    if u != "" && x != "" {
      assert LogsIn(s, op, u, x);
    }
  }

  /** A session is routed to a stream after an operation if and only if it has just
      spoken on it, or was routed to it and neither spoke on another open stream,
      went offline nor was bound to a stream that ended being this one. */
  lemma RouteExactly(s: Server, op: Op, sid: string, c: Stream)
    requires Inv(s)
    ensures var t := Step(s, op);
            var speaks := op.DoProcess? && op.stream in s.bound && op.sid == sid && sid != "";
            (sid in t.sessions && t.sessions[sid] == c) <==>
              || (speaks && op.stream == c)
              || (&& sid in s.sessions && s.sessions[sid] == c && !speaks
                  && !(op.DoOffline? && op.sid == sid) && !(op == DoCleanup(c) && c in s.bound && sid in s.bound[c]))
  {
    hide Inv, Rebind, LogOut, Join, Leave, Expel;
    match op
    case DoProcess(_, _, _) =>
    case DoCleanup(_) =>
    case DoOffline(_, _) =>
    case _ =>
  }

  /** A stream is open after an operation if and only if it has just been opened,
      under a number never used before, or was open and did not end; and it has
      bound exactly the sessions that have spoken on it. */
  lemma BoundExactly(s: Server, op: Op, c: Stream, sid: string)
    requires Inv(s)
    ensures var t := Step(s, op);
            && (c in t.bound <==> (op == DoOpen && c == s.streamSeq + 1) || (c in s.bound && op != DoCleanup(c)))
            && (op == DoOpen ==> s.streamSeq + 1 !in s.bound && t.streamSeq == s.streamSeq + 1)
            && (c in t.bound ==>
                  (sid in t.bound[c] <==>
                     || (c in s.bound && sid in s.bound[c])
                     || (op.DoProcess? && op.stream == c && op.sid == sid && sid != "" && c in s.bound)))
  {
    hide Inverse, Converse, Rebind, LogOut, Join, Leave, Expel;
    match op
    case DoOpen =>
    case DoProcess(_, _, _) =>
    case DoCleanup(_) =>
    case _ =>
  }

  /** After the end of a stream in any reachable state no session is routed to it,
      and no session it had bound has a user or a group. */
  lemma CleanupForgets(ops: seq<Op>, c: Stream)
    requires c in Run(EMPTY, ops).bound
    ensures var s := Run(EMPTY, ops);
            var t := Cleanup(s, c);
            && (forall sid :: sid in t.sessions ==> t.sessions[sid] != c)
            && (forall sid :: sid in s.bound[c] ==>
                  && sid !in t.sessionUsers && sid !in t.userSessions.Values
                  && Of(t.sessionGroups, sid) == {}
                  && forall g :: sid !in Of(t.groups, g))
  {
    var s := Run(EMPTY, ops);
    Reachable(ops);
    CleanupKeeps(s, c);
    var t := Cleanup(s, c);
    forall sid, g | sid in s.bound[c] ensures sid !in Of(t.groups, g) {
      assert Of(t.sessionGroups, sid) == {};
    }
  }

  /** A session has the same user, or none, and the same groups in both states. */
  ghost predicate SameLogin(s: Server, t: Server, sid: string)
  {
    && (sid in s.sessionUsers <==> sid in t.sessionUsers)
    && (sid in s.sessionUsers ==> t.sessionUsers[sid] == s.sessionUsers[sid])
    && Of(t.sessionGroups, sid) == Of(s.sessionGroups, sid)
  }

  /** A session routed to another stream stays routed there when a stream ends. Its
      user and groups survive if and only if the ending stream never bound it, or
      there are none to lose. */
  lemma CleanupHitsMovedSessions(s: Server, c: Stream, sid: string)
    requires Inv(s) && c in s.bound && sid in s.sessions && s.sessions[sid] != c
    ensures var t := Cleanup(s, c);
            && sid in t.sessions && t.sessions[sid] == s.sessions[sid]
            && (SameLogin(s, t, sid) <==>
                  sid !in s.bound[c] || (sid !in s.sessionUsers && sid !in s.sessionGroups))
  {
    hide Inverse, LogOut, Expel;
    assert sid in s.sessionGroups ==> Of(s.sessionGroups, sid) != {};
  }

  /** Such a state is reached by a client that moves from one gateway stream to
      another; when the first one ends, its user is logged out. */
  lemma MovedSessionIsLoggedOut()
    ensures var s := Run(EMPTY, [DoOpen, DoOpen, DoProcess(1, "s", "u"), DoProcess(2, "s", "")]);
            && 1 in s.bound && "s" in s.sessions && s.sessions["s"] == 2
            && "s" in s.sessionUsers && "u" in s.userSessions
            && var t := Cleanup(s, 1);
               "s" in t.sessions && t.sessions["s"] == 2 && "s" !in t.sessionUsers && "u" !in t.userSessions
  {
    var ops := [DoOpen, DoOpen, DoProcess(1, "s", "u"), DoProcess(2, "s", "")];
    var s1 := Step(EMPTY, ops[0]);
    var s2 := Step(s1, ops[1]);
    var s3 := Step(s2, ops[2]);
    var s4 := Step(s3, ops[3]);
    assert Run(EMPTY, ops) == s4 by {
      assert ops[1..][1..] == ops[2..] && ops[2..][1..] == ops[3..] && ops[3..][1..] == [];
      assert Run(s3, ops[3..]) == s4;
      assert Run(s2, ops[2..]) == s4;
      assert Run(s1, ops[1..]) == s4;
    }
    assert s4.userSessions["u"] == "s";
  }

  /** Sessions a stream never bound are untouched by its end. */
  lemma CleanupFrame(s: Server, c: Stream, sid: string)
    requires Inv(s) && c in s.bound && sid !in s.bound[c]
    ensures var t := Cleanup(s, c);
            && (sid in s.sessions <==> sid in t.sessions)
            && (sid in s.sessions ==> t.sessions[sid] == s.sessions[sid])
            && (sid in s.sessionUsers <==> sid in t.sessionUsers)
            && (sid in s.sessionUsers ==> t.sessionUsers[sid] == s.sessionUsers[sid])
            && Of(t.sessionGroups, sid) == Of(s.sessionGroups, sid)
  {
  }

  /** Going offline ends routing and groups. It ends the session's login exactly
      when no user is named, the session has none, or the named user is the one
      logged in on it; naming another user logs that user out instead. */
  lemma OfflineExactly(s: Server, sid: string, user: string)
    requires Inv(s)
    ensures var t := Offline(s, sid, user);
            && sid !in t.sessions && Of(t.sessionGroups, sid) == {} && (forall g :: sid !in Of(t.groups, g))
            && (sid !in t.sessionUsers <==> user == "" || sid !in s.sessionUsers || s.sessionUsers[sid] == user)
            && (user != "" ==> user !in t.userSessions)
  {
    hide LogOut, Expel, Inverse, Offline;
    OfflineKeeps(s, sid, user);
    OfflineGroups(s, sid, user);
    OfflineUser(s, sid, user);
    var t := Offline(s, sid, user);
    forall g ensures sid !in Of(t.groups, g) {
      assert sid in Of(t.groups, g) <==> g in Of(t.sessionGroups, sid);
    }
  }

  lemma OfflineGroups(s: Server, sid: string, user: string)
    ensures var t := Offline(s, sid, user); sid !in t.sessions && Of(t.sessionGroups, sid) == {}
  {
    hide LogOut, Expel;
  }

  lemma OfflineUser(s: Server, sid: string, user: string)
    requires Inverse(s.userSessions, s.sessionUsers)
    ensures var t := Offline(s, sid, user);
            && (sid !in t.sessionUsers <==> user == "" || sid !in s.sessionUsers || s.sessionUsers[sid] == user)
            && (user != "" ==> user !in t.userSessions)
  {
    hide LogOut, Expel;
  }

  // ---------------------------------------------------------------- the server object

  method AddMember(g: Groups, k: string, x: string) returns (r: Groups)
    ensures r == Join(g, k, x)
  {
    r := g;
    if k !in r {
      r := r[k := {}];
    }
    r := r[k := r[k] + {x}];
  }

  /** An emptied set is not kept. */
  method RemoveMember(g: Groups, k: string, x: string) returns (r: Groups)
    requires k in g
    ensures r == Leave(g, k, x)
  {
    r := g[k := g[k] - {x}];
    if |r[k]| == 0 {
      r := r - {k};
    }
  }

  class LogicServer {
    var streamSeq: nat
    var bound: map<Stream, set<string>>
    var sessions: map<string, Stream>
    var userSessions: map<string, string>
    var sessionUsers: map<string, string>
    var groups: Groups
    var sessionGroups: Groups

    ghost function View(): Server
      reads this
    {
      Server(streamSeq, bound, sessions, userSessions, sessionUsers, groups, sessionGroups)
    }

    ghost predicate Valid()
      reads this
    {
      Inv(View())
    }

    constructor ()
      ensures Valid() && View() == EMPTY
    {
      streamSeq, bound, sessions := 0, map[], map[];
      userSessions, sessionUsers, groups, sessionGroups := map[], map[], map[], map[];
    }

    method Open() returns (c: Stream)
      requires Valid()
      modifies this
      ensures Valid() && View() == OpenStream(old(View())) && c in bound && c !in old(bound)
    {
      streamSeq := streamSeq + 1;
      c := streamSeq;
      bound := bound[c := {}];
    }

    method Register(user: string, sid: string)
      requires Valid()
      modifies this`userSessions, this`sessionUsers
      ensures Valid() && View() == RegisterUser(old(View()), user, sid)
    {
      hide Inv, Rebind;
      RegisterKeeps(View(), user, sid);
      SwapsAreRebind(View(), user, sid);
      if user == "" || sid == "" {
        return;
      }
      var byUser, bySession := userSessions, sessionUsers;
      if user in byUser && byUser[user] != sid {
        bySession := bySession - {byUser[user]};
      }
      byUser := byUser[user := sid];
      if sid in bySession && bySession[sid] != user {
        byUser := byUser - {bySession[sid]};
      }
      bySession := bySession[sid := user];
      userSessions, sessionUsers := byUser, bySession;
    }

    method Unregister(user: string)
      requires Valid()
      modifies this`userSessions, this`sessionUsers
      ensures Valid() && View() == UnregisterUser(old(View()), user)
    {
      UnregisterKeeps(View(), user);
      if user in userSessions {
        var sid := userSessions[user];
        userSessions := userSessions - {user};
        if sid in sessionUsers && sessionUsers[sid] == user {
          sessionUsers := sessionUsers - {sid};
        }
      }
    }

    /** The size of the group afterwards. */
    method JoinPushGroup(gid: string, sid: string) returns (n: nat)
      requires Valid()
      modifies this`groups, this`sessionGroups
      ensures Valid() && View() == JoinGroup(old(View()), gid, sid)
      ensures n == if gid == "" || sid == "" then 0 else |Of(groups, gid)|
    {
      hide Inverse, Converse, Join, Of;
      JoinConverse(groups, sessionGroups, gid, sid);
      if gid == "" || sid == "" {
        return 0;
      }
      groups := AddMember(groups, gid, sid);
      sessionGroups := AddMember(sessionGroups, sid, gid);
      return |Of(groups, gid)|;
    }

    method LeavePushGroup(gid: string, sid: string) returns (n: nat)
      requires Valid()
      modifies this`groups, this`sessionGroups
      ensures Valid() && View() == LeaveGroup(old(View()), gid, sid)
      ensures n == |Of(groups, gid)|
    {
      hide Inverse, Converse, Leave;
      LeaveConverse(groups, sessionGroups, gid, sid);
      LeaveAbsent(groups, sessionGroups, gid, sid);
      if gid !in groups {
        return 0;
      }
      groups := RemoveMember(groups, gid, sid);
      if sid in sessionGroups {
        sessionGroups := RemoveMember(sessionGroups, sid, gid);
      }
      return |Of(groups, gid)|;
    }

    /** Visits only the groups listed for the session; each of them exists. */
    method LeaveAll(sid: string)
      requires Valid()
      modifies this`groups, this`sessionGroups
      ensures Valid() && View() == LeaveAllGroups(old(View()), {sid})
    {
      hide Inverse, Converse, Expel, ExpelExcept;
      ExpelConverse(groups, sessionGroups, {sid});
      ExpelStarts(groups, sessionGroups, sid);
      var all := groups;
      var todo := if sid in sessionGroups then sessionGroups[sid] else {};
      while todo != {}
        invariant todo <= Of(sessionGroups, sid) && sessionGroups == old(sessionGroups)
        invariant groups == ExpelExcept(all, sid, todo)
        decreases todo
      {
        var gid :| gid in todo;
        ExpelOne(all, sid, todo, gid);
        var members := groups[gid] - {sid};
        groups := groups[gid := members];
        if |members| == 0 {
          groups := groups - {gid};
        }
        todo := todo - {gid};
      }
      ExpelEnds(all, sid);
      sessionGroups := sessionGroups - {sid};
    }

    method LogOutSession(sid: string)
      requires Valid()
      modifies this`userSessions, this`sessionUsers
      ensures Valid()
      ensures userSessions == LogOut(old(userSessions), {sid}) && sessionUsers == old(sessionUsers) - {sid}
    {
      hide Converse;
      LogOutInverse(userSessions, sessionUsers, {sid});
      if sid in sessionUsers {
        var user := sessionUsers[sid];
        sessionUsers := sessionUsers - {sid};
        if user in userSessions && userSessions[user] == sid {
          userSessions := userSessions - {user};
        }
      }
      assert userSessions == LogOut(old(userSessions), {sid});
    }

    method GoOffline(sid: string, user: string)
      requires Valid()
      modifies this
      ensures Valid() && View() == Offline(old(View()), sid, user)
    {
      hide Inverse, Converse, Expel, LogOut;
      sessions := sessions - {sid};
      LeaveAll(sid);
      if user != "" {
        Unregister(user);
        return;
      }
      LogOutSession(sid);
    }

    method ProcessMessage(c: Stream, sid: string, user: string)
      requires Valid() && c in bound
      modifies this
      ensures Valid() && View() == Process(old(View()), c, sid, user)
    {
      hide Inverse, Converse, Rebind;
      if sid != "" {
        sessions := sessions[sid := c];
        bound := bound[c := bound[c] + {sid}];
        if user != "" {
          Register(user, sid);
        }
      }
    }

    /** The end of a stream: its sessions are cleared one by one, in any order. */
    method EndStream(c: Stream)
      requires Valid() && c in bound
      modifies this
      ensures Valid() && View() == Cleanup(old(View()), c)
    {
      hide Inverse, Converse, Expel, LogOut, Inv;
      var todo := bound[c];
      ghost var done: set<string> := {};
      NothingCleared(View(), c);
      while todo != {}
        invariant Valid() && bound == old(bound) && streamSeq == old(streamSeq)
        invariant todo + done == bound[c] && todo !! done
        invariant View() == Cleared(old(View()), c, done)
        decreases todo
      {
        var sid :| sid in todo;
        ghost var before := View();
        UnrouteKeeps(View(), c, sid);
        if sid in sessions && sessions[sid] == c {
          sessions := sessions - {sid};
        }
        LogOutSession(sid);
        LeaveAll(sid);
        ClearOne(old(View()), c, done, sid);
        todo, done := todo - {sid}, done + {sid};
      }
      CleanupKeeps(old(View()), c);
      bound := bound - {c};
    }
  }

  // ---------------------------------------------------------------- steps of the loops above

  lemma SwapsAreRebind(server: Server, u: string, s: string)
    requires Inv(server)
    ensures var us, su := server.userSessions, server.sessionUsers;
            var us1 := us[u := s];
            var su1 := if u in us && us[u] != s then su - {us[u]} else su;
            var su2 := su1[s := u];
            var us2 := if s in su1 && su1[s] != u then us1 - {su1[s]} else us1;
            us2 == Rebind(us, u, s) && su2 == Rebind(su, s, u)
  {
    hide Converse, Routed;
  }

  lemma LeaveAbsent(g: Groups, sg: Groups, k: string, x: string)
    requires Converse(g, sg)
    ensures k !in g ==> Leave(g, k, x) == g && Leave(sg, x, k) == sg
    ensures x !in sg ==> Leave(sg, x, k) == sg
  {
    if k !in g {
      assert x !in Of(g, k);
      assert x in sg ==> Of(sg, x) - {k} == sg[x];
    }
  }

  /** One session taken out of every group but those still to do. */
  ghost function ExpelExcept(g: Groups, sid: string, todo: set<string>): Groups
  {
    map k | k in g && (k in todo || g[k] - {sid} != {}) :: if k in todo then g[k] else g[k] - {sid}
  }

  lemma ExpelStarts(g: Groups, sg: Groups, sid: string)
    requires Converse(g, sg)
    ensures ExpelExcept(g, sid, Of(sg, sid)) == g
    ensures forall k :: k in Of(sg, sid) ==> k in g
  {
    forall k ensures sid in Of(g, k) <==> k in Of(sg, sid) {}
    forall k | k in g && k !in Of(sg, sid) ensures g[k] - {sid} == g[k] {
      assert sid !in Of(g, k);
    }
    forall k | k in Of(sg, sid) ensures k in g {
      assert sid in Of(g, k);
    }
  }

  lemma ExpelOne(g: Groups, sid: string, todo: set<string>, k: string)
    requires k in todo && k in g
    ensures var h := ExpelExcept(g, sid, todo);
            && k in h
            && ExpelExcept(g, sid, todo - {k}) == (if h[k] - {sid} == {} then h - {k} else h[k := h[k] - {sid}])
            && h[k := h[k] - {sid}] - {k} == h - {k}
  {
  }

  lemma ExpelEnds(g: Groups, sid: string)
    ensures ExpelExcept(g, sid, {}) == Expel(g, {sid})
  {
  }

  /** A stream's end after part of its sessions has been cleared. */
  ghost function Cleared(s: Server, c: Stream, done: set<string>): Server
  {
    LeaveAllGroups(s, done).(
      sessions := Unrouted(s.sessions, c, done),
      userSessions := LogOut(s.userSessions, done),
      sessionUsers := s.sessionUsers - done)
  }

  ghost function Unrouted(m: map<string, Stream>, c: Stream, done: set<string>): map<string, Stream>
  {
    map sid | sid in m && !(sid in done && m[sid] == c) :: m[sid]
  }

  lemma NothingCleared(s: Server, c: Stream)
    requires Inv(s)
    ensures Cleared(s, c, {}) == s
  {
    assert Expel(s.groups, {}) == s.groups by {
      forall k | k in s.groups ensures s.groups[k] - {} == s.groups[k] {}
    }
    assert LogOut(s.userSessions, {}) == s.userSessions;
    assert Unrouted(s.sessions, c, {}) == s.sessions;
  }

  lemma UnrouteKeeps(s: Server, c: Stream, sid: string)
    requires Inv(s)
    ensures Inv(s.(sessions := s.sessions - {sid}))
  {
  }

  lemma ExpelMore(g: Groups, done: set<string>, sid: string)
    ensures Expel(Expel(g, done), {sid}) == Expel(g, done + {sid})
  {
    forall k | k in g ensures g[k] - done - {sid} == g[k] - (done + {sid}) {}
  }

  lemma ClearOne(s: Server, c: Stream, done: set<string>, sid: string)
    ensures LogOut(LogOut(s.userSessions, done), {sid}) == LogOut(s.userSessions, done + {sid})
    ensures s.sessionUsers - done - {sid} == s.sessionUsers - (done + {sid})
    ensures s.sessionGroups - done - {sid} == s.sessionGroups - (done + {sid})
    ensures Expel(Expel(s.groups, done), {sid}) == Expel(s.groups, done + {sid})
    ensures var m := Unrouted(s.sessions, c, done);
            (if sid in m && m[sid] == c then m - {sid} else m) == Unrouted(s.sessions, c, done + {sid})
  {
    ExpelMore(s.groups, done, sid);
  }
}
