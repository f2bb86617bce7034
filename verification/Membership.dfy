// The servers of the raft configuration: `Join` and `Leave` of the distributed
// log, and the serf events that drive them (internal/discovery/membership.go).
module Membership {
  import opened Wrappers

  datatype Server = Server(id: string, addr: string)

  type Configuration = seq<Server>

  /** No two servers share an id or an address. */
  ghost predicate Unique(c: Configuration) {
    forall i, j :: 0 <= i < j < |c| ==> c[i].id != c[j].id && c[i].addr != c[j].addr
  }

  predicate Conflicts(s: Server, id: string, addr: string) {
    s.id == id || s.addr == addr
  }

  function Remove(c: Configuration, id: string): Configuration {
    if c == [] then []
    else (if c[0].id == id then [] else [c[0]]) + Remove(c[1..], id)
  }

  /** raft sets the address of a known id and adds an unknown one. */
  function SetVoter(c: Configuration, id: string, addr: string): Configuration {
    if c == [] then [Server(id, addr)]
    else if c[0].id == id then [Server(id, addr)] + c[1..]
    else [c[0]] + SetVoter(c[1..], id, addr)
  }

  /** The servers that do not conflict with (id, addr). */
  function Others(c: Configuration, id: string, addr: string): Configuration {
    if c == [] then []
    else (if Conflicts(c[0], id, addr) then [] else [c[0]]) + Others(c[1..], id, addr)
  }

  /** The configuration a successful Join leaves. */
  function Joined(c: Configuration, id: string, addr: string): Configuration {
    if Server(id, addr) in c then c else Others(c, id, addr) + [Server(id, addr)]
  }

  // ---------- facts about the configuration functions

  lemma {:induction false} InOthers(c: Configuration, id: string, addr: string, s: Server)
    ensures s in Others(c, id, addr) <==> s in c && !Conflicts(s, id, addr)
  {
    if c != [] {
      InOthers(c[1..], id, addr, s);
      assert c == [c[0]] + c[1..];
    }
  }

  lemma {:induction false} InRemove(c: Configuration, id: string, s: Server)
    ensures s in Remove(c, id) <==> s in c && s.id != id
  {
    if c != [] {
      InRemove(c[1..], id, s);
      assert c == [c[0]] + c[1..];
    }
  }

  lemma {:induction false} UniqueTail(c: Configuration)
    requires Unique(c) && c != []
    ensures Unique(c[1..])
    ensures forall s :: s in c[1..] ==> s.id != c[0].id && s.addr != c[0].addr
  {
  }

  lemma {:induction false} UniqueCons(s: Server, c: Configuration)
    requires Unique(c) && forall t :: t in c ==> t.id != s.id && t.addr != s.addr
    ensures Unique([s] + c)
  {
    forall j | 0 <= j < |c|
      ensures c[j].id != s.id && c[j].addr != s.addr
    {
      assert c[j] in c;
    }
  }

  lemma {:induction false} OthersUnique(c: Configuration, id: string, addr: string)
    requires Unique(c)
    ensures Unique(Others(c, id, addr))
  {
    if c != [] {
      UniqueTail(c);
      OthersUnique(c[1..], id, addr);
      forall s | s in Others(c[1..], id, addr)
        ensures s in c[1..]
      {
        InOthers(c[1..], id, addr, s);
      }
      if !Conflicts(c[0], id, addr) {
        UniqueCons(c[0], Others(c[1..], id, addr));
      } else {
        assert [] + Others(c[1..], id, addr) == Others(c[1..], id, addr);
      }
    }
  }

  lemma {:induction false} RemoveUnique(c: Configuration, id: string)
    requires Unique(c)
    ensures Unique(Remove(c, id))
  {
    if c != [] {
      UniqueTail(c);
      RemoveUnique(c[1..], id);
      forall s | s in Remove(c[1..], id)
        ensures s in c[1..]
      {
        InRemove(c[1..], id, s);
      }
      if c[0].id != id {
        UniqueCons(c[0], Remove(c[1..], id));
      } else {
        assert [] + Remove(c[1..], id) == Remove(c[1..], id);
      }
    }
  }

  lemma {:induction false} UniqueAppend(c: Configuration, s: Server)
    requires Unique(c) && forall t :: t in c ==> t.id != s.id && t.addr != s.addr
    ensures Unique(c + [s])
  {
    forall j | 0 <= j < |c|
      ensures c[j].id != s.id && c[j].addr != s.addr
    {
      assert c[j] in c;
    }
  }

  /** Join keeps ids and addresses unique. */
  lemma {:induction false} JoinedUnique(c: Configuration, id: string, addr: string)
    requires Unique(c)
    ensures Unique(Joined(c, id, addr))
  {
    if Server(id, addr) !in c {
      OthersUnique(c, id, addr);
      forall t | t in Others(c, id, addr)
        ensures t.id != id && t.addr != addr
      {
        InOthers(c, id, addr, t);
      }
      UniqueAppend(Others(c, id, addr), Server(id, addr));
    }
  }

  lemma {:induction false} UniqueConflict(c: Configuration, s: Server, t: Server)
    requires Unique(c) && s in c && t in c && Conflicts(t, s.id, s.addr)
    ensures s == t
  {
    var i :| 0 <= i < |c| && c[i] == s;
    var j :| 0 <= j < |c| && c[j] == t;
  }

  /** A successful Join leaves the server present, every server without a conflict
      in place and no conflicting one. */
  lemma {:induction false} InJoined(c: Configuration, id: string, addr: string, s: Server)
    requires Unique(c)
    ensures s in Joined(c, id, addr) <==> s == Server(id, addr) || (s in c && !Conflicts(s, id, addr))
  {
    InOthers(c, id, addr, s);
    if Server(id, addr) in c && s in c && Conflicts(s, id, addr) {
      UniqueConflict(c, Server(id, addr), s);
    }
  }

  lemma {:induction false} JoinedAgain(c: Configuration, id: string, addr: string)
    requires Unique(c)
    ensures Joined(Joined(c, id, addr), id, addr) == Joined(c, id, addr)
  {
    InJoined(c, id, addr, Server(id, addr));
  }

  // ---------- the loop of Join

  lemma {:induction false} RemoveConcat(a: Configuration, b: Configuration, id: string)
    ensures Remove(a + b, id) == Remove(a, id) + Remove(b, id)
  {
    if a == [] {
      assert a + b == b;
    } else {
      RemoveConcat(a[1..], b, id);
      assert (a + b)[1..] == a[1..] + b;
      Regroup(if a[0].id == id then [] else [a[0]], Remove(a[1..], id), Remove(b, id));
    }
  }

  lemma {:induction false} RemoveAbsent(c: Configuration, id: string)
    requires forall s :: s in c ==> s.id != id
    ensures Remove(c, id) == c
  {
    if c != [] {
      RemoveAbsent(c[1..], id);
    }
  }

  lemma {:induction false} SetAbsent(c: Configuration, id: string, addr: string)
    requires forall s :: s in c ==> s.id != id
    ensures SetVoter(c, id, addr) == c + [Server(id, addr)]
  {
    if c != [] {
      SetAbsent(c[1..], id, addr);
    }
  }

  /** The loop has looked at the first `k` servers of the configuration it read. */
  function Pruned(c: Configuration, id: string, addr: string, k: nat): Configuration
    requires k <= |c|
  {
    Others(c[..k], id, addr) + c[k..]
  }

  lemma {:induction false} OthersAppend(c: Configuration, s: Server, id: string, addr: string)
    ensures Others(c + [s], id, addr) == Others(c, id, addr) + if Conflicts(s, id, addr) then [] else [s]
  {
    if c == [] {
      assert c + [s] == [s] && [s][1..] == [];
      assert Others([s], id, addr) == (if Conflicts(s, id, addr) then [] else [s]) + Others([], id, addr);
    } else {
      OthersAppend(c[1..], s, id, addr);
      assert (c + [s])[1..] == c[1..] + [s];
    }
  }

  lemma {:induction false} PrunedStep(c: Configuration, id: string, addr: string, k: nat)
    requires Unique(c) && k < |c|
    ensures Pruned(c, id, addr, k + 1) ==
            if Conflicts(c[k], id, addr) then Remove(Pruned(c, id, addr, k), c[k].id) else Pruned(c, id, addr, k)
  {
    var a, s, b := Others(c[..k], id, addr), c[k], c[k + 1..];
    assert Others(c[..k + 1], id, addr) == a + if Conflicts(s, id, addr) then [] else [s] by {
      assert c[..k + 1] == c[..k] + [s];
      OthersAppend(c[..k], s, id, addr);
    }
    assert c[k..] == [s] + b;
    if Conflicts(s, id, addr) {
      forall t | t in a
        ensures t.id != s.id
      {
        InOthers(c[..k], id, addr, t);
      }
      calc {
        Remove(a + c[k..], s.id);
        { RemoveConcat(a, c[k..], s.id); RemoveAbsent(a, s.id); }
        a + Remove(c[k..], s.id);
        { RemoveAbsent(b, s.id); assert c[k..][1..] == b; assert [] + Remove(b, s.id) == b; }
        a + b;
      }
    }
  }

  lemma {:induction false} PrunedUnique(c: Configuration, id: string, addr: string, k: nat)
    requires Unique(c) && k <= |c|
    ensures Unique(Pruned(c, id, addr, k))
    decreases k
  {
    if k == 0 {
    } else {
      PrunedUnique(c, id, addr, k - 1);
      PrunedStep(c, id, addr, k - 1);
      RemoveUnique(Pruned(c, id, addr, k - 1), c[k - 1].id);
    }
  }

  lemma {:induction false} NothingPruned(c: Configuration, id: string, addr: string)
    requires forall s :: s in c ==> !Conflicts(s, id, addr)
    ensures Others(c, id, addr) == c
  {
    if c != [] {
      NothingPruned(c[1..], id, addr);
    }
  }

  /** A Join that fails half way has only removed servers in conflict. */
  lemma {:induction false} InPruned(c: Configuration, id: string, addr: string, k: nat, s: Server)
    requires k <= |c|
    ensures s in Pruned(c, id, addr, k) ==> s in c
    ensures s in c && !Conflicts(s, id, addr) ==> s in Pruned(c, id, addr, k)
  {
    InOthers(c[..k], id, addr, s);
    assert c == c[..k] + c[k..];
  }

  lemma {:induction false} NonePruned(c: Configuration, id: string, addr: string)
    ensures Pruned(c, id, addr, 0) == c && c[..0] == []
  {
  }

  /** Until the server itself is met, nothing is in conflict with it. */
  lemma {:induction false} AlreadyJoined(c: Configuration, id: string, addr: string, k: nat)
    requires Unique(c) && k < |c| && c[k] == Server(id, addr) && Server(id, addr) !in c[..k]
    ensures Pruned(c, id, addr, k) == c == Joined(c, id, addr)
  {
    hide Unique;
    forall s | s in c[..k]
      ensures !Conflicts(s, id, addr)
    {
      if Conflicts(s, id, addr) {
        UniqueConflict(c, c[k], s);
      }
    }
    NothingPruned(c[..k], id, addr);
  }

  /** With all conflicts removed, the new voter is added at the end. */
  lemma {:induction false} AllPruned(c: Configuration, id: string, addr: string)
    requires Unique(c) && Server(id, addr) !in c[..|c|]
    ensures Unique(Pruned(c, id, addr, |c|)) && Unique(Joined(c, id, addr))
    ensures Server(id, addr) !in c && SetVoter(Pruned(c, id, addr, |c|), id, addr) == Joined(c, id, addr)
  {
    hide Unique;
    assert c[..|c|] == c && c[|c|..] == [];
    var others := Others(c, id, addr);
    assert Pruned(c, id, addr, |c|) == others;
    OthersUnique(c, id, addr);
    forall s | s in others
      ensures s.id != id
    {
      InOthers(c, id, addr, s);
    }
    SetAbsent(others, id, addr);
    JoinedUnique(c, id, addr);
  }

  /** Raft as the log sees it: a change is made as a whole or fails.  The field
      `failures` counts the calls that failed. */
  class Raft {
    var servers: Configuration
    var failures: nat

    constructor (c: Configuration)
      ensures servers == c && failures == 0
    {
      servers, failures := c, 0;
    }

    /** Whether the call that is coming succeeds is up to raft. */
    method Succeeds() returns (ok: bool)
      modifies this`failures
      ensures failures == old(failures) + if ok then 0 else 1
    {
      ok := *;
      failures := failures + if ok then 0 else 1;
    }

    method GetConfiguration() returns (c: Option<Configuration>)
      modifies this`failures
      ensures c.Some? ==> c.value == servers
      ensures failures == old(failures) + if c.Some? then 0 else 1
    {
      var ok := Succeeds();
      return if ok then Some(servers) else None;
    }

    method RemoveServer(id: string) returns (ok: bool)
      modifies this
      ensures servers == if ok then Remove(old(servers), id) else old(servers)
      ensures failures == old(failures) + if ok then 0 else 1
    {
      ok := Succeeds();
      if ok {
        servers := Remove(servers, id);
      }
    }

    method AddVoter(id: string, addr: string) returns (ok: bool)
      modifies this
      ensures servers == if ok then SetVoter(old(servers), id, addr) else old(servers)
      ensures failures == old(failures) + if ok then 0 else 1
    {
      ok := Succeeds();
      if ok {
        servers := SetVoter(servers, id, addr);
      }
    }

    /** Fails exactly when one of its calls does, and then at once.  Whatever fails on
        the way, ids and addresses stay unique and no server without a conflict is lost. */
    method Join(id: string, addr: string) returns (ok: bool)
      requires Unique(servers)
      modifies this
      ensures Unique(servers) && failures == old(failures) + if ok then 0 else 1
      ensures ok ==> servers == Joined(old(servers), id, addr)
      ensures !ok ==> exists k ::
                0 <= k <= |old(servers)| && (k > 0 ==> Server(id, addr) !in old(servers))
                && servers == Pruned(old(servers), id, addr, k)
    {
      hide Unique, Others, Pruned, SetVoter, Joined, Remove;
      NonePruned(servers, id, addr);
      var configuration := GetConfiguration();
      if configuration.None? {
        return false;
      }
      var c := configuration.value;
      assert Pruned(c, id, addr, 0) == c;
      var i := 0;
      while i < |c|
        invariant 0 <= i <= |c| && servers == Pruned(c, id, addr, i) && failures == old(failures)
        invariant Server(id, addr) !in c[..i]
      {
        PrunedUnique(c, id, addr, i);
        PrunedStep(c, id, addr, i);
        var srv := c[i];
        if Conflicts(srv, id, addr) {
          if srv.id == id && srv.addr == addr {
            AlreadyJoined(c, id, addr, i);
            return true;
          }
          var removed := RemoveServer(srv.id);
          if !removed {
            if Server(id, addr) in c {
              UniqueConflict(c, Server(id, addr), srv);
            }
            return false;
          }
        }
        i := i + 1;
      }
      AllPruned(c, id, addr);
      ok := AddVoter(id, addr);
      if !ok {
        assert servers == Pruned(c, id, addr, |c|);
      }
    }

    method Leave(id: string) returns (ok: bool)
      requires Unique(servers)
      modifies this
      ensures Unique(servers) && servers == if ok then Remove(old(servers), id) else old(servers)
      ensures failures == old(failures) + if ok then 0 else 1
    {
      RemoveUnique(servers, id);
      ok := RemoveServer(id);
    }
  }

  // ---------- serf events

  datatype Kind = MemberJoin | MemberLeave | MemberFailed | OtherEvent

  datatype Event = Event(kind: Kind, members: seq<Server>)

  datatype Action = JoinAction(server: Server) | LeaveAction(id: string)

  /** Joins of all but the local member. */
  function JoinActions(members: seq<Server>, local: string): seq<Action> {
    if members == [] then []
    else (if members[0].id == local then [] else [JoinAction(members[0])]) + JoinActions(members[1..], local)
  }

  predicate Leaving(e: Event) {
    e.kind.MemberLeave? || e.kind.MemberFailed?
  }

  /** Leaves of the members before the local one. */
  function LeaveActions(members: seq<Server>, local: string): seq<Action> {
    if members == [] || members[0].id == local then []
    else [LeaveAction(members[0].id)] + LeaveActions(members[1..], local)
  }

  predicate HasLocal(members: seq<Server>, local: string) {
    members != [] && (members[0].id == local || HasLocal(members[1..], local))
  }

  /** What the handler does with the trace until the local member leaves. */
  function Actions(events: seq<Event>, local: string): seq<Action> {
    if events == [] then []
    else
      var e, rest := events[0], events[1..];
      if e.kind.MemberJoin? then JoinActions(e.members, local) + Actions(rest, local)
      else if Leaving(e) then
        LeaveActions(e.members, local) + if HasLocal(e.members, local) then [] else Actions(rest, local)
      else Actions(rest, local)
  }

  function Act(c: Configuration, a: Action): Configuration {
    match a
    case JoinAction(s) => Joined(c, s.id, s.addr)
    case LeaveAction(id) => Remove(c, id)
  }

  function Fold(c: Configuration, actions: seq<Action>): Configuration
    decreases |actions|
  {
    if actions == [] then c else Fold(Act(c, actions[0]), actions[1..])
  }

  /** `a` puts `s` out: it leaves, moves, or gives its address up to another. */
  predicate Evicts(a: Action, s: Server) {
    match a
    case JoinAction(t) => t != s && Conflicts(t, s.id, s.addr)
    case LeaveAction(id) => id == s.id
  }

  /** `s` was there (`i` is 0) or joined by action `i - 1`, and nothing later put it out. */
  ghost predicate PresentSince(c: Configuration, actions: seq<Action>, s: Server, i: nat) {
    && i <= |actions| && (if i == 0 then s in c else actions[i - 1] == JoinAction(s))
    && forall j :: i <= j < |actions| ==> !Evicts(actions[j], s)
  }

  ghost predicate Present(c: Configuration, actions: seq<Action>, s: Server) {
    exists i: nat :: PresentSince(c, actions, s, i)
  }

  lemma {:induction false} ActUnique(c: Configuration, a: Action)
    requires Unique(c)
    ensures Unique(Act(c, a))
    ensures forall s :: s in Act(c, a) <==> a == JoinAction(s) || (s in c && !Evicts(a, s))
  {
    match a {
      case JoinAction(t) =>
        JoinedUnique(c, t.id, t.addr);
        forall s {
          InJoined(c, t.id, t.addr, s);
        }
      case LeaveAction(id) =>
        RemoveUnique(c, id);
        forall s {
          InRemove(c, id, s);
        }
    }
  }

  /** The configuration after a trace holds exactly the servers whose last relevant
      event put them in. */
  lemma {:induction false} FoldMembership(c: Configuration, actions: seq<Action>, s: Server)
    requires Unique(c)
    ensures Unique(Fold(c, actions)) && (s in Fold(c, actions) <==> Present(c, actions, s))
    decreases |actions|
  {
    if actions == [] {
      assert s in c ==> PresentSince(c, actions, s, 0);
    } else {
      var a, rest := actions[0], actions[1..];
      ActUnique(c, a);
      FoldMembership(Act(c, a), rest, s);
      if Present(Act(c, a), rest, s) {
        PresentEarlier(c, actions, s);
      }
      if Present(c, actions, s) {
        PresentLater(c, actions, s);
      }
    }
  }

  lemma {:induction false} PresentEarlier(c: Configuration, actions: seq<Action>, s: Server)
    requires Unique(c) && actions != [] && Present(Act(c, actions[0]), actions[1..], s)
    ensures Present(c, actions, s)
  {
    ActUnique(c, actions[0]);
    var rest := actions[1..];
    var i: nat :| PresentSince(Act(c, actions[0]), rest, s, i);
    var k := if i == 0 && actions[0] != JoinAction(s) then 0 else i + 1;
    forall j | k <= j < |actions|
      ensures !Evicts(actions[j], s)
    {
      if j > 0 {
        assert actions[j] == rest[j - 1];
      }
    }
    assert PresentSince(c, actions, s, k);
  }

  lemma {:induction false} PresentLater(c: Configuration, actions: seq<Action>, s: Server)
    requires Unique(c) && actions != [] && Present(c, actions, s)
    ensures Present(Act(c, actions[0]), actions[1..], s)
  {
    ActUnique(c, actions[0]);
    var rest := actions[1..];
    var i: nat :| PresentSince(c, actions, s, i);
    var k := if i <= 1 then 0 else i - 1;
    forall j | k <= j < |rest|
      ensures !Evicts(rest[j], s)
    {
      assert rest[j] == actions[j + 1];
    }
    assert PresentSince(Act(c, actions[0]), rest, s, k);
  }

  // ---------- what a trace of events means

  /** Member `m` of event `e`. */
  predicate At(events: seq<Event>, e: nat, m: nat) {
    e < |events| && m < |events[e].members|
  }

  /** The second position comes after the first. */
  predicate Later(e: nat, m: nat, e': nat, m': nat) {
    e < e' || (e == e' && m < m')
  }

  /** The local member leaves, or is said to have failed. */
  predicate Exits(events: seq<Event>, local: string, e: nat, m: nat) {
    && At(events, e, m) && (events[e].kind == MemberLeave || events[e].kind == MemberFailed)
    && events[e].members[m].id == local
  }

  /** The handler has not exited before this position. */
  ghost predicate Reached(events: seq<Event>, local: string, e: nat, m: nat) {
    At(events, e, m) && forall e', m' :: Exits(events, local, e', m') ==> !Later(e', m', e, m)
  }

  /** A member other than the local one joins as `s`. */
  ghost predicate PutsIn(events: seq<Event>, local: string, s: Server, e: nat, m: nat) {
    Reached(events, local, e, m) && events[e].kind == MemberJoin && events[e].members[m] == s && s.id != local
  }

  /** A member other than the local one leaves or fails under the name of `s`, or joins
      under its name at another address or under another name at its address. */
  ghost predicate PutsOut(events: seq<Event>, local: string, s: Server, e: nat, m: nat) {
    && Reached(events, local, e, m)
    && var t := events[e].members[m];
       && t.id != local
       && (((events[e].kind == MemberLeave || events[e].kind == MemberFailed) && t.id == s.id)
           || (events[e].kind == MemberJoin && t != s && (t.id == s.id || t.addr == s.addr)))
  }

  /** `s` was there or joined, and nothing after that put it out. */
  ghost predicate Remains(c: Configuration, events: seq<Event>, local: string, s: Server) {
    || (s in c && forall e, m :: !PutsOut(events, local, s, e, m))
    || exists e, m :: PutsIn(events, local, s, e, m)
                      && forall e', m' :: PutsOut(events, local, s, e', m') ==> !Later(e, m, e', m')
  }

  /** Without errors the configuration after a trace holds exactly the servers that
      the events put in and did not put out again before the handler's exit. */
  lemma {:induction false} TraceMembership(c: Configuration, events: seq<Event>, local: string, s: Server)
    requires Unique(c)
    ensures s in Fold(c, Actions(events, local)) <==> Remains(c, events, local, s)
  {
    hide Unique, Fold, Actions, Process, Remains, RemainsAfter, Moves;
    FoldIsProcess(c, events, local);
    ProcessMembership(c, Moves(events), local, s);
    RemainsAlike(c, events, local, s);
  }

  // The same over the moves of the trace, one member after the other.

  datatype Move = Move(kind: Kind, member: Server)

  function EventMoves(kind: Kind, members: seq<Server>): seq<Move> {
    if members == [] then [] else [Move(kind, members[0])] + EventMoves(kind, members[1..])
  }

  function Moves(events: seq<Event>): seq<Move> {
    if events == [] then [] else EventMoves(events[0].kind, events[0].members) + Moves(events[1..])
  }

  predicate ExitMove(mv: Move, local: string) {
    (mv.kind == MemberLeave || mv.kind == MemberFailed) && mv.member.id == local
  }

  function ActMove(c: Configuration, mv: Move, local: string): Configuration {
    if mv.kind == OtherEvent || mv.member.id == local then c
    else if mv.kind == MemberJoin then Joined(c, mv.member.id, mv.member.addr)
    else Remove(c, mv.member.id)
  }

  function Process(c: Configuration, moves: seq<Move>, local: string): Configuration
    decreases |moves|
  {
    if moves == [] || ExitMove(moves[0], local) then c else Process(ActMove(c, moves[0], local), moves[1..], local)
  }

  lemma {:induction false} ProcessFirst(c: Configuration, mv: Move, rest: seq<Move>, local: string)
    ensures Process(c, [mv] + rest, local) ==
            if ExitMove(mv, local) then c else Process(ActMove(c, mv, local), rest, local)
  {
    assert ([mv] + rest)[1..] == rest;
  }

  lemma {:induction false} JoinsProcessed(
      c: Configuration, members: seq<Server>, local: string, rest: seq<Action>, tail: seq<Move>)
    requires forall d :: Fold(d, rest) == Process(d, tail, local)
    ensures Fold(c, JoinActions(members, local) + rest) == Process(c, EventMoves(MemberJoin, members) + tail, local)
    decreases |members|
  {
    hide Fold, Process, Joined;
    if members == [] {
      assert [] + rest == rest && [] + tail == tail;
    } else {
      var m, actions, moves := members[0], JoinActions(members[1..], local), EventMoves(MemberJoin, members[1..]);
      Regroup([Move(MemberJoin, m)], moves, tail);
      ProcessFirst(c, Move(MemberJoin, m), moves + tail, local);
      if m.id == local {
        assert [] + actions == actions;
        JoinsProcessed(c, members[1..], local, rest, tail);
      } else {
        Regroup([JoinAction(m)], actions, rest);
        FoldFirst(c, JoinAction(m), actions + rest);
        JoinsProcessed(Joined(c, m.id, m.addr), members[1..], local, rest, tail);
      }
    }
  }

  lemma {:induction false} FoldFirst(c: Configuration, a: Action, rest: seq<Action>)
    ensures Fold(c, [a] + rest) == Fold(Act(c, a), rest)
  {
    assert ([a] + rest)[1..] == rest;
  }

  lemma {:induction false} LeavesProcessed(
      c: Configuration, kind: Kind, members: seq<Server>, local: string, rest: seq<Action>, tail: seq<Move>)
    requires kind == MemberLeave || kind == MemberFailed
    requires forall d :: Fold(d, rest) == Process(d, tail, local)
    ensures Fold(c, LeaveActions(members, local) + if HasLocal(members, local) then [] else rest) ==
            Process(c, EventMoves(kind, members) + tail, local)
    decreases |members|
  {
    hide Fold, Process, Remove;
    if members == [] {
      assert [] + rest == rest && [] + tail == tail;
    } else {
      var m, actions, moves := members[0], LeaveActions(members[1..], local), EventMoves(kind, members[1..]);
      Regroup([Move(kind, m)], moves, tail);
      ProcessFirst(c, Move(kind, m), moves + tail, local);
      if m.id == local {
        FoldNothing(c);
      } else {
        var after := if HasLocal(members[1..], local) then [] else rest;
        Regroup([LeaveAction(m.id)], actions, after);
        FoldFirst(c, LeaveAction(m.id), actions + after);
        LeavesProcessed(Remove(c, m.id), kind, members[1..], local, rest, tail);
      }
    }
  }

  lemma {:induction false} FoldNothing(c: Configuration)
    ensures Fold(c, []) == c && Fold(c, [] + []) == c
  {
  }

  lemma {:induction false} OthersProcessed(c: Configuration, members: seq<Server>, local: string, tail: seq<Move>)
    ensures Process(c, EventMoves(OtherEvent, members) + tail, local) == Process(c, tail, local)
    decreases |members|
  {
    if members == [] {
      assert [] + tail == tail;
    } else {
      var moves := EventMoves(OtherEvent, members[1..]);
      Regroup([Move(OtherEvent, members[0])], moves, tail);
      ProcessFirst(c, Move(OtherEvent, members[0]), moves + tail, local);
      OthersProcessed(c, members[1..], local, tail);
    }
  }

  lemma {:induction false} FoldIsProcess(c: Configuration, events: seq<Event>, local: string)
    ensures Fold(c, Actions(events, local)) == Process(c, Moves(events), local)
    decreases |events|
  {
    hide Fold, Process, JoinActions, LeaveActions, HasLocal, EventMoves;
    if events == [] {
      FoldNothing(c);
      ProcessNothing(c, local);
    } else {
      var e, rest, tail := events[0], Actions(events[1..], local), Moves(events[1..]);
      forall d
        ensures Fold(d, rest) == Process(d, tail, local)
      {
        FoldIsProcess(d, events[1..], local);
      }
      match e.kind {
        case MemberJoin => JoinsProcessed(c, e.members, local, rest, tail);
        case OtherEvent => OthersProcessed(c, e.members, local, tail);
        case _ => LeavesProcessed(c, e.kind, e.members, local, rest, tail);
      }
    }
  }

  lemma {:induction false} ProcessNothing(c: Configuration, local: string)
    ensures Process(c, [], local) == c
  {
  }

  // The law over the moves.

  ghost predicate ReachedMove(moves: seq<Move>, local: string, j: nat) {
    j < |moves| && forall i :: 0 <= i < j ==> !ExitMove(moves[i], local)
  }

  ghost predicate MoveIn(moves: seq<Move>, local: string, s: Server, j: nat) {
    ReachedMove(moves, local, j) && moves[j].kind == MemberJoin && moves[j].member == s && s.id != local
  }

  ghost predicate MoveOut(moves: seq<Move>, local: string, s: Server, j: nat) {
    && ReachedMove(moves, local, j)
    && var t := moves[j].member;
       && t.id != local
       && (((moves[j].kind == MemberLeave || moves[j].kind == MemberFailed) && t.id == s.id)
           || (moves[j].kind == MemberJoin && t != s && (t.id == s.id || t.addr == s.addr)))
  }

  ghost predicate RemainsAfter(c: Configuration, moves: seq<Move>, local: string, s: Server) {
    || (s in c && forall j: nat :: !MoveOut(moves, local, s, j))
    || exists i: nat :: MoveIn(moves, local, s, i) && forall j: nat :: MoveOut(moves, local, s, j) ==> j <= i
  }

  ghost predicate ExitedIn(moves: seq<Move>, local: string) {
    exists j :: 0 <= j < |moves| && ExitMove(moves[j], local)
  }

  lemma {:induction false} ProcessLast(c: Configuration, moves: seq<Move>, mv: Move, local: string)
    ensures Process(c, moves + [mv], local) ==
            if ExitedIn(moves + [mv], local) then Process(c, moves, local)
            else ActMove(Process(c, moves, local), mv, local)
    decreases |moves|
  {
    hide ExitMove, ActMove;
    var all := moves + [mv];
    assert all[|moves|] == mv && forall j :: 0 <= j < |moves| ==> all[j] == moves[j];
    if moves == [] {
      assert all == [mv] + [];
      ProcessFirst(c, mv, [], local);
    } else {
      var m, rest := moves[0], moves[1..];
      assert all == [m] + (rest + [mv]) && moves == [m] + rest;
      ProcessFirst(c, m, rest + [mv], local);
      ProcessFirst(c, m, rest, local);
      if ExitMove(m, local) {
        assert ExitMove(all[0], local);
      } else {
        ProcessLast(ActMove(c, m, local), rest, mv, local);
        ExitedLater(m, rest + [mv], local);
      }
    }
  }

  lemma {:induction false} ExitedLater(mv: Move, rest: seq<Move>, local: string)
    requires !ExitMove(mv, local)
    ensures ExitedIn([mv] + rest, local) <==> ExitedIn(rest, local)
  {
    hide ExitMove;
    if j :| 0 <= j < |rest| && ExitMove(rest[j], local) {
      assert ([mv] + rest)[j + 1] == rest[j];
    }
    if j :| 0 <= j < |[mv] + rest| && ExitMove(([mv] + rest)[j], local) {
      assert j > 0 && ([mv] + rest)[j] == rest[j - 1];
    }
  }

  lemma {:induction false} ActMoveMembers(c: Configuration, mv: Move, local: string, s: Server)
    requires Unique(c) && !ExitMove(mv, local)
    ensures Unique(ActMove(c, mv, local))
    ensures s in ActMove(c, mv, local) <==>
            (mv.kind == MemberJoin && mv.member == s && s.id != local)
            || (s in c && !(mv.member.id != local
                            && (((mv.kind == MemberLeave || mv.kind == MemberFailed) && mv.member.id == s.id)
                                || (mv.kind == MemberJoin && mv.member != s
                                    && (mv.member.id == s.id || mv.member.addr == s.addr)))))
  {
    hide Unique;
    var m := mv.member;
    JoinedUnique(c, m.id, m.addr);
    InJoined(c, m.id, m.addr, s);
    RemoveUnique(c, m.id);
    InRemove(c, m.id, s);
  }

  lemma {:induction false} ProcessMembership(c: Configuration, moves: seq<Move>, local: string, s: Server)
    requires Unique(c)
    ensures Unique(Process(c, moves, local))
    ensures s in Process(c, moves, local) <==> RemainsAfter(c, moves, local, s)
    decreases |moves|
  {
    hide Unique, ActMove, Process, RemainsAfter, ExitedIn;
    if moves == [] {
      ProcessNothing(c, local);
      NothingMoves(c, local, s);
    } else {
      var n := |moves| - 1;
      var init, mv := moves[..n], moves[n];
      assert moves == init + [mv];
      ProcessMembership(c, init, local, s);
      ProcessLast(c, init, mv, local);
      RemainsLast(c, init, mv, local, s);
      if !ExitedIn(moves, local) {
        NotExited(moves, local);
        ActMoveMembers(Process(c, init, local), mv, local, s);
      }
    }
  }

  lemma {:induction false} NothingMoves(c: Configuration, local: string, s: Server)
    ensures RemainsAfter(c, [], local, s) <==> s in c
  {
  }

  lemma {:induction false} NotExited(moves: seq<Move>, local: string)
    requires !ExitedIn(moves, local)
    ensures forall j :: 0 <= j < |moves| ==> !ExitMove(moves[j], local)
  {
  }

  /** What one more move does to the law. */
  lemma {:induction false} RemainsLast(c: Configuration, init: seq<Move>, mv: Move, local: string, s: Server)
    ensures RemainsAfter(c, init + [mv], local, s) <==>
            if ExitedIn(init + [mv], local) then RemainsAfter(c, init, local, s)
            else
              || (mv.kind == MemberJoin && mv.member == s && s.id != local)
              || (RemainsAfter(c, init, local, s)
                  && !(mv.member.id != local
                       && (((mv.kind == MemberLeave || mv.kind == MemberFailed) && mv.member.id == s.id)
                           || (mv.kind == MemberJoin && mv.member != s
                               && (mv.member.id == s.id || mv.member.addr == s.addr)))))
  {
    hide ExitMove, MoveIn, MoveOut, ExitedIn;
    var all, n := init + [mv], |init|;
    EarlierMoves(init, mv, local, s);
    LastMove(init, mv, local, s);
    if RemainsAfter(c, init, local, s) && !MoveOut(all, local, s, n) {
      if !(s in c && forall j: nat :: !MoveOut(init, local, s, j)) {
        var i: nat :| MoveIn(init, local, s, i) && forall j: nat :: MoveOut(init, local, s, j) ==> j <= i;
        assert MoveIn(all, local, s, i);
      }
      assert RemainsAfter(c, all, local, s);
    }
    if MoveIn(all, local, s, n) {
      assert RemainsAfter(c, all, local, s);
    } else if RemainsAfter(c, all, local, s) {
      if !(s in c && forall j: nat :: !MoveOut(all, local, s, j)) {
        var i: nat :| MoveIn(all, local, s, i) && forall j: nat :: MoveOut(all, local, s, j) ==> j <= i;
        assert MoveIn(init, local, s, i) && !MoveOut(all, local, s, n);
      }
      assert !MoveOut(all, local, s, n) && RemainsAfter(c, init, local, s);
    }
  }

  lemma {:induction false} EarlierMoves(init: seq<Move>, mv: Move, local: string, s: Server)
    ensures var all, n := init + [mv], |init|;
            forall j: nat ::
              && (j < n ==> (MoveIn(all, local, s, j) <==> MoveIn(init, local, s, j)))
              && (j < n ==> (MoveOut(all, local, s, j) <==> MoveOut(init, local, s, j)))
              && (MoveIn(init, local, s, j) || MoveOut(init, local, s, j) ==> j < n)
              && (MoveIn(all, local, s, j) || MoveOut(all, local, s, j) ==> j <= n)
  {
    hide ExitMove;
    var all, n := init + [mv], |init|;
    assert forall i :: 0 <= i < n ==> all[i] == init[i];
  }

  lemma {:induction false} LastMove(init: seq<Move>, mv: Move, local: string, s: Server)
    ensures var all, n := init + [mv], |init|;
            && (MoveIn(all, local, s, n) <==>
                  !ExitedIn(all, local) && mv.kind == MemberJoin && mv.member == s && s.id != local)
            && (MoveOut(all, local, s, n) <==>
                  !ExitedIn(all, local) && mv.member.id != local
                  && (((mv.kind == MemberLeave || mv.kind == MemberFailed) && mv.member.id == s.id)
                      || (mv.kind == MemberJoin && mv.member != s
                          && (mv.member.id == s.id || mv.member.addr == s.addr))))
  {
    var all := init + [mv];
    assert all[|init|] == mv && forall j :: 0 <= j < |init| ==> all[j] == init[j];
    if ExitedIn(all, local) {
      var j :| 0 <= j < |all| && ExitMove(all[j], local);
    }
  }

  // Positions in the trace and in its moves.

  function Before(events: seq<Event>, e: nat): nat
    requires e <= |events|
  {
    if e == 0 then 0 else |events[0].members| + Before(events[1..], e - 1)
  }

  lemma {:induction false} EventMovesAt(kind: Kind, members: seq<Server>)
    ensures |EventMoves(kind, members)| == |members|
    ensures forall m :: 0 <= m < |members| ==> EventMoves(kind, members)[m] == Move(kind, members[m])
  {
    if members != [] {
      EventMovesAt(kind, members[1..]);
    }
  }

  lemma {:induction false} MovesAt(events: seq<Event>, e: nat, m: nat)
    requires At(events, e, m)
    ensures Before(events, e) + m < |Moves(events)|
    ensures Moves(events)[Before(events, e) + m] == Move(events[e].kind, events[e].members[m])
    decreases |events|
  {
    EventMovesAt(events[0].kind, events[0].members);
    if e > 0 {
      MovesAt(events[1..], e - 1, m);
    }
  }

  lemma {:induction false} MoveAt(events: seq<Event>, k: nat) returns (e: nat, m: nat)
    requires k < |Moves(events)|
    ensures At(events, e, m) && Before(events, e) + m == k
    decreases |events|
  {
    var n := |events[0].members|;
    EventMovesAt(events[0].kind, events[0].members);
    if k < n {
      e, m := 0, k;
    } else {
      e, m := MoveAt(events[1..], k - n);
      e := e + 1;
    }
  }

  lemma {:induction false} PositionsOrdered(events: seq<Event>, e: nat, m: nat, e': nat, m': nat)
    requires At(events, e, m) && At(events, e', m')
    ensures Before(events, e) + m < Before(events, e') + m' <==> Later(e, m, e', m')
    decreases |events|
  {
    if e > 0 && e' > 0 {
      PositionsOrdered(events[1..], e - 1, m, e' - 1, m');
    }
  }

  lemma {:induction false} ReachedAlike(events: seq<Event>, local: string, e: nat, m: nat)
    requires At(events, e, m)
    ensures Reached(events, local, e, m) <==> ReachedMove(Moves(events), local, Before(events, e) + m)
  {
    hide Before, Moves, Later;
    var moves, k := Moves(events), Before(events, e) + m;
    MovesAt(events, e, m);
    if ReachedMove(moves, local, k) {
      forall e', m' | Exits(events, local, e', m')
        ensures !Later(e', m', e, m)
      {
        MovesAt(events, e', m');
        PositionsOrdered(events, e', m', e, m);
      }
    } else {
      var i :| 0 <= i < k && ExitMove(moves[i], local);
      var e', m' := MoveAt(events, i);
      MovesAt(events, e', m');
      PositionsOrdered(events, e', m', e, m);
      assert Exits(events, local, e', m');
    }
  }

  lemma {:induction false} MovesAlike(events: seq<Event>, local: string, s: Server, e: nat, m: nat)
    requires At(events, e, m)
    ensures PutsIn(events, local, s, e, m) <==> MoveIn(Moves(events), local, s, Before(events, e) + m)
    ensures PutsOut(events, local, s, e, m) <==> MoveOut(Moves(events), local, s, Before(events, e) + m)
  {
    hide Before, Moves, Reached, ReachedMove;
    MovesAt(events, e, m);
    ReachedAlike(events, local, e, m);
    ReachedInside(events, local, e, m);
  }

  lemma {:induction false} ReachedInside(events: seq<Event>, local: string, e: nat, m: nat)
    ensures Reached(events, local, e, m) ==> At(events, e, m)
    ensures forall j: nat :: ReachedMove(Moves(events), local, j) ==> j < |Moves(events)|
  {
  }

  lemma {:induction false} RemainsAlike(c: Configuration, events: seq<Event>, local: string, s: Server)
    ensures Remains(c, events, local, s) <==> RemainsAfter(c, Moves(events), local, s)
  {
    hide Before, Moves, Reached, ReachedMove, PutsIn, PutsOut, MoveIn, MoveOut, Later;
    var moves := Moves(events);
    forall e: nat, m: nat | PutsIn(events, local, s, e, m) || PutsOut(events, local, s, e, m)
      ensures At(events, e, m)
    {
      PutsInside(events, local, s, e, m);
    }
    forall e: nat, m: nat | At(events, e, m)
      ensures PutsIn(events, local, s, e, m) <==> MoveIn(moves, local, s, Before(events, e) + m)
      ensures PutsOut(events, local, s, e, m) <==> MoveOut(moves, local, s, Before(events, e) + m)
    {
      MovesAlike(events, local, s, e, m);
    }
    if Remains(c, events, local, s) {
      RemainsDown(c, events, local, s);
    }
    if RemainsAfter(c, moves, local, s) {
      RemainsUp(c, events, local, s);
    }
  }

  lemma {:induction false} PutsInside(events: seq<Event>, local: string, s: Server, e: nat, m: nat)
    ensures PutsIn(events, local, s, e, m) || PutsOut(events, local, s, e, m) ==> At(events, e, m)
    ensures forall j: nat :: MoveIn(Moves(events), local, s, j) || MoveOut(Moves(events), local, s, j) ==>
              j < |Moves(events)|
  {
  }

  lemma {:induction false} RemainsDown(c: Configuration, events: seq<Event>, local: string, s: Server)
    requires Remains(c, events, local, s)
    ensures RemainsAfter(c, Moves(events), local, s)
  {
    hide Before, Moves, Reached, ReachedMove, PutsIn, PutsOut, MoveIn, MoveOut, Later;
    var moves := Moves(events);
    PutsInside(events, local, s, 0, 0);
    forall j: nat | MoveOut(moves, local, s, j)
      ensures exists e, m :: At(events, e, m) && Before(events, e) + m == j && PutsOut(events, local, s, e, m)
    {
      var e, m := MoveAt(events, j);
      MovesAlike(events, local, s, e, m);
    }
    if !(s in c && forall e, m :: !PutsOut(events, local, s, e, m)) {
      var e, m :| PutsIn(events, local, s, e, m)
                  && forall e', m' :: PutsOut(events, local, s, e', m') ==> !Later(e, m, e', m');
      PutsInside(events, local, s, e, m);
      MovesAlike(events, local, s, e, m);
      var i := Before(events, e) + m;
      forall j: nat | MoveOut(moves, local, s, j)
        ensures j <= i
      {
        var e', m' :| At(events, e', m') && Before(events, e') + m' == j && PutsOut(events, local, s, e', m');
        PositionsOrdered(events, e, m, e', m');
      }
      assert MoveIn(moves, local, s, i);
    }
  }

  lemma {:induction false} RemainsUp(c: Configuration, events: seq<Event>, local: string, s: Server)
    requires RemainsAfter(c, Moves(events), local, s)
    ensures Remains(c, events, local, s)
  {
    hide Before, Moves, Reached, ReachedMove, PutsIn, PutsOut, MoveIn, MoveOut, Later;
    var moves := Moves(events);
    PutsInside(events, local, s, 0, 0);
    forall e: nat, m: nat | PutsOut(events, local, s, e, m)
      ensures At(events, e, m) && MoveOut(moves, local, s, Before(events, e) + m)
    {
      PutsInside(events, local, s, e, m);
      MovesAlike(events, local, s, e, m);
    }
    if !(s in c && forall j: nat :: !MoveOut(moves, local, s, j)) {
      var i: nat :| MoveIn(moves, local, s, i) && forall j: nat :: MoveOut(moves, local, s, j) ==> j <= i;
      var e, m := MoveAt(events, i);
      MovesAlike(events, local, s, e, m);
      forall e', m' | PutsOut(events, local, s, e', m')
        ensures !Later(e, m, e', m')
      {
        PositionsOrdered(events, e, m, e', m');
      }
      assert PutsIn(events, local, s, e, m);
    }
  }

  // ---------- calls that fail

  /** A call does what it should, or fails; a join may by then have looked at the
      first `seen` servers and removed those of them in conflict. */
  datatype Outcome = Done | Failed(seen: nat)

  function ActWith(c: Configuration, a: Action, o: Outcome): Configuration {
    if o.Done? then Act(c, a)
    else match a
      case JoinAction(s) => if o.seen <= |c| then Pruned(c, s.id, s.addr, o.seen) else c
      case LeaveAction(_) => c
  }

  /** Joining a server that is there can only fail before anything is looked at. */
  predicate Possible(c: Configuration, a: Action, o: Outcome) {
    o.Failed? && a.JoinAction? ==> o.seen <= |c| && (o.seen > 0 ==> a.server !in c)
  }

  /** The actions, with these outcomes, lead from `c` to `d`. */
  predicate Ran(c: Configuration, actions: seq<Action>, outs: seq<Outcome>, d: Configuration)
    decreases |actions|
  {
    && |actions| == |outs|
    && if actions == [] then c == d
       else Possible(c, actions[0], outs[0]) && Ran(ActWith(c, actions[0], outs[0]), actions[1..], outs[1..], d)
  }

  function Failures(outs: seq<Outcome>): nat {
    if outs == [] then 0 else (if outs[0].Failed? then 1 else 0) + Failures(outs[1..])
  }

  lemma {:induction false} RanMore(
      c: Configuration, actions: seq<Action>, outs: seq<Outcome>, d: Configuration, a: Action, o: Outcome)
    requires Ran(c, actions, outs, d) && Possible(d, a, o)
    ensures Ran(c, actions + [a], outs + [o], ActWith(d, a, o))
    ensures Failures(outs + [o]) == Failures(outs) + if o.Failed? then 1 else 0
    decreases |actions|
  {
    hide ActWith, Possible;
    if actions == [] {
      assert (actions + [a])[1..] == [] && (outs + [o])[1..] == [];
    } else {
      assert (actions + [a])[1..] == actions[1..] + [a] && (outs + [o])[1..] == outs[1..] + [o];
      RanMore(ActWith(c, actions[0], outs[0]), actions[1..], outs[1..], d, a, o);
    }
  }

  lemma {:induction false} RanTwice(
    c: Configuration, first: seq<Action>, outs: seq<Outcome>, d: Configuration,
    second: seq<Action>, outs': seq<Outcome>, e: Configuration)
    requires Ran(c, first, outs, d) && Ran(d, second, outs', e)
    ensures Ran(c, first + second, outs + outs', e) && Failures(outs + outs') == Failures(outs) + Failures(outs')
    decreases |first|
  {
    hide ActWith, Possible;
    if first == [] {
      assert first + second == second && outs + outs' == outs';
    } else {
      assert (first + second)[1..] == first[1..] + second && (outs + outs')[1..] == outs[1..] + outs';
      RanTwice(ActWith(c, first[0], outs[0]), first[1..], outs[1..], d, second, outs', e);
    }
  }

  /** Without a failure the configuration is the fold of the actions. */
  lemma {:induction false} RanWithoutFailure(
      c: Configuration, actions: seq<Action>, outs: seq<Outcome>, d: Configuration)
    requires Ran(c, actions, outs, d) && Failures(outs) == 0
    ensures d == Fold(c, actions)
    decreases |actions|
  {
    hide Act;
    if actions != [] {
      RanWithoutFailure(ActWith(c, actions[0], outs[0]), actions[1..], outs[1..], d);
    }
  }

  /** `s` was there (`i` is 0) or joined with success by action `i - 1`, and no later
      action put it out: none that succeeded or, to be sure, none at all. */
  ghost predicate HereSince(c: Configuration, actions: seq<Action>, outs: seq<Outcome>, s: Server, i: nat, sure: bool)
    requires |actions| == |outs|
  {
    && i <= |actions| && (if i == 0 then s in c else actions[i - 1] == JoinAction(s) && outs[i - 1].Done?)
    && forall j :: i <= j < |actions| ==> Evicts(actions[j], s) ==> !sure && outs[j].Failed?
  }

  ghost predicate Here(c: Configuration, actions: seq<Action>, outs: seq<Outcome>, s: Server, sure: bool)
    requires |actions| == |outs|
  {
    exists i: nat :: HereSince(c, actions, outs, s, i, sure)
  }

  lemma {:induction false} ActWithMembers(c: Configuration, a: Action, o: Outcome)
    requires Unique(c) && Possible(c, a, o)
    ensures Unique(ActWith(c, a, o))
    ensures forall s :: (a == JoinAction(s) && o.Done?) || (s in c && !Evicts(a, s)) ==> s in ActWith(c, a, o)
    ensures forall s :: s in ActWith(c, a, o) ==>
              (a == JoinAction(s) && o.Done?) || (s in c && (Evicts(a, s) ==> o.Failed?))
  {
    hide Unique;
    ActUnique(c, a);
    if o.Failed? && a.JoinAction? {
      PrunedUnique(c, a.server.id, a.server.addr, o.seen);
      NonePruned(c, a.server.id, a.server.addr);
      forall s {
        InPruned(c, a.server.id, a.server.addr, o.seen, s);
      }
    }
  }

  /** Whatever fails: ids and addresses stay unique; a server that came in and that
      no later action could put out is in; and a server that is in came in and was
      put out by no later action that succeeded. */
  lemma {:induction false} RanMembership(
      c: Configuration, actions: seq<Action>, outs: seq<Outcome>, d: Configuration, s: Server)
    requires Unique(c) && Ran(c, actions, outs, d)
    ensures Unique(d)
    ensures Here(c, actions, outs, s, true) ==> s in d
    ensures s in d ==> Here(c, actions, outs, s, false)
    decreases |actions|
  {
    hide Unique, ActWith, Possible, Evicts;
    if actions == [] {
      assert s in c ==> HereSince(c, actions, outs, s, 0, false);
    } else {
      var a, o, rest, outs' := actions[0], outs[0], actions[1..], outs[1..];
      ActWithMembers(c, a, o);
      RanMembership(ActWith(c, a, o), rest, outs', d, s);
      if Here(c, actions, outs, s, true) {
        var i: nat :| HereSince(c, actions, outs, s, i, true);
        forall j | 0 <= j < |rest|
          ensures rest[j] == actions[j + 1] && outs'[j] == outs[j + 1]
        {
        }
        assert HereSince(ActWith(c, a, o), rest, outs', s, if i <= 1 then 0 else i - 1, true);
      }
      if s in d {
        var i: nat :| HereSince(ActWith(c, a, o), rest, outs', s, i, false);
        var k := if i == 0 && !(a == JoinAction(s) && o.Done?) then 0 else i + 1;
        forall j | k <= j < |actions| && Evicts(actions[j], s)
          ensures outs[j].Failed?
        {
          if j > 0 {
            assert actions[j] == rest[j - 1] && outs[j] == outs'[j - 1];
          }
        }
        assert HereSince(c, actions, outs, s, k, false);
      }
    }
  }

  // ---------- the handler

  /** The members of a join event; failed calls are only logged. */
  method HandleJoins(raft: Raft, members: seq<Server>, local: string) returns (errors: nat, ghost outs: seq<Outcome>)
    requires Unique(raft.servers)
    modifies raft
    ensures Unique(raft.servers) && errors == Failures(outs) && raft.failures == old(raft.failures) + errors
    ensures Ran(old(raft.servers), JoinActions(members, local), outs, raft.servers)
  {
    hide Unique, Joined, Pruned, Ran, Failures, JoinActions;
    JoinsNone(local);
    assert members[0..] == members;
    errors, outs := 0, [];
    ghost var done: seq<Action> := [];
    RanNothing(raft.servers);
    var j := 0;
    while j < |members|
      invariant 0 <= j <= |members| && Unique(raft.servers) && errors == Failures(outs)
      invariant raft.failures == old(raft.failures) + errors
      invariant Ran(old(raft.servers), done, outs, raft.servers)
      invariant done + JoinActions(members[j..], local) == JoinActions(members, local)
    {
      var m := members[j];
      assert members[j..][0] == m && members[j..][1..] == members[j + 1..];
      JoinsFirst(done, members[j..], local);
      if m.id != local {
        ghost var before := raft.servers;
        var ok := raft.Join(m.id, m.addr);
        ghost var o := Done;
        if !ok {
          errors := errors + 1;
          ghost var k :|
            0 <= k <= |before| && (k > 0 ==> m !in before) && raft.servers == Pruned(before, m.id, m.addr, k);
          o := Failed(k);
        }
        RanMore(old(raft.servers), done, outs, before, JoinAction(m), o);
        done, outs := done + [JoinAction(m)], outs + [o];
      }
      j := j + 1;
    }
    assert members[|members|..] == [] && done + [] == done;
  }

  lemma {:induction false} JoinsFirst(done: seq<Action>, members: seq<Server>, local: string)
    requires members != []
    ensures done + JoinActions(members, local) ==
            (if members[0].id == local then done else done + [JoinAction(members[0])])
            + JoinActions(members[1..], local)
  {
    Regroup(done, if members[0].id == local then [] else [JoinAction(members[0])], JoinActions(members[1..], local));
    assert done + [] == done;
  }

  lemma {:induction false} JoinsNone(local: string)
    ensures JoinActions([], local) == LeaveActions([], local) == [] && !HasLocal([], local)
  {
  }

  lemma {:induction false} RanNothing(c: Configuration)
    ensures Ran(c, [], [], c) && Failures([]) == 0
  {
  }

  /** The members of a leave or failure event, up to the local one. */
  method HandleLeaves(raft: Raft, members: seq<Server>, local: string)
    returns (errors: nat, exit: bool, ghost outs: seq<Outcome>)
    requires Unique(raft.servers)
    modifies raft
    ensures Unique(raft.servers) && errors == Failures(outs) && exit == HasLocal(members, local)
    ensures raft.failures == old(raft.failures) + errors
    ensures Ran(old(raft.servers), LeaveActions(members, local), outs, raft.servers)
  {
    hide Unique, Remove, Ran, Failures, LeaveActions, HasLocal;
    JoinsNone(local);
    assert members[0..] == members;
    errors, exit, outs := 0, false, [];
    ghost var done: seq<Action> := [];
    RanNothing(raft.servers);
    var j := 0;
    while j < |members|
      invariant 0 <= j <= |members| && Unique(raft.servers) && errors == Failures(outs) && !exit
      invariant raft.failures == old(raft.failures) + errors
      invariant Ran(old(raft.servers), done, outs, raft.servers)
      invariant done + LeaveActions(members[j..], local) == LeaveActions(members, local)
      invariant HasLocal(members[j..], local) == HasLocal(members, local)
    {
      var m := members[j];
      assert members[j..][0] == m && members[j..][1..] == members[j + 1..];
      LeavesFirst(done, members[j..], local);
      if m.id == local {
        exit := true;
        break;
      }
      ghost var before := raft.servers;
      var ok := raft.Leave(m.id);
      ghost var o := if ok then Done else Failed(0);
      errors := errors + if ok then 0 else 1;
      RanMore(old(raft.servers), done, outs, before, LeaveAction(m.id), o);
      done, outs := done + [LeaveAction(m.id)], outs + [o];
      j := j + 1;
    }
    assert members[|members|..] == [] && done + [] == done;
  }

  lemma {:induction false} LeavesFirst(done: seq<Action>, members: seq<Server>, local: string)
    requires members != []
    ensures if members[0].id == local then HasLocal(members, local) && LeaveActions(members, local) == []
            else
              && HasLocal(members, local) == HasLocal(members[1..], local)
              && done + LeaveActions(members, local) ==
                 done + [LeaveAction(members[0].id)] + LeaveActions(members[1..], local)
  {
    Regroup(done, [LeaveAction(members[0].id)], LeaveActions(members[1..], local));
  }

  /** The event loop of the membership handler. */
  method EventHandler(raft: Raft, events: seq<Event>, local: string) returns (errors: nat, ghost outs: seq<Outcome>)
    requires Unique(raft.servers)
    modifies raft
    ensures Unique(raft.servers) && errors == Failures(outs) && raft.failures == old(raft.failures) + errors
    ensures Ran(old(raft.servers), Actions(events, local), outs, raft.servers)
    ensures errors == 0 ==> raft.servers == Fold(old(raft.servers), Actions(events, local))
    ensures errors == 0 ==> forall s :: s in raft.servers <==> Remains(old(raft.servers), events, local, s)
  {
    hide Remains;
    hide Unique, JoinActions, LeaveActions, HasLocal, Ran, Failures, Fold;
    errors, outs := 0, [];
    ghost var done: seq<Action> := [];
    RanNothing(raft.servers);
    var i := 0;
    while i < |events|
      invariant 0 <= i <= |events| && Unique(raft.servers) && errors == Failures(outs)
      invariant raft.failures == old(raft.failures) + errors
      invariant Ran(old(raft.servers), done, outs, raft.servers)
      invariant done + Actions(events[i..], local) == Actions(events, local)
    {
      var e := events[i];
      ghost var before, rest := raft.servers, Actions(events[i + 1..], local);
      assert events[i..][0] == e && events[i..][1..] == events[i + 1..];
      if e.kind.MemberJoin? {
        ghost var now := JoinActions(e.members, local);
        var n;
        ghost var more;
        n, more := HandleJoins(raft, e.members, local);
        RanTwice(old(raft.servers), done, outs, before, now, more, raft.servers);
        assert done + (now + rest) == (done + now) + rest;
        errors, done, outs := errors + n, done + now, outs + more;
      } else if Leaving(e) {
        ghost var now := LeaveActions(e.members, local);
        var n, exit;
        ghost var more;
        n, exit, more := HandleLeaves(raft, e.members, local);
        RanTwice(old(raft.servers), done, outs, before, now, more, raft.servers);
        errors, outs := errors + n, outs + more;
        assert now + [] == now && done + (now + rest) == (done + now) + rest;
        done := done + now;
        if exit {
          break;
        }
      }
      i := i + 1;
    }
    assert done + [] == done;
    if errors == 0 {
      RanWithoutFailure(old(raft.servers), done, outs, raft.servers);
      forall s
        ensures s in raft.servers <==> Remains(old(raft.servers), events, local, s)
      {
        TraceMembership(old(raft.servers), events, local, s);
      }
    }
  }
}
