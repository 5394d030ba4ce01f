/** The session pool of hasher-privd.c: a linked list that mirrors the unreaped session servers. */
module SessionPool {
  import opened Bytes

  // ------------------------------------------------------------ specification

  datatype Entry = Entry(uid: int, gid: int, num: int, pid: int)

  /** The pool, and the daemon's children as the kernel knows them: each unreaped pid, with whether it has exited. */
  datatype State = State(entries: seq<Entry>, children: map<int, bool>)

  predicate HasKey(es: seq<Entry>, uid: int, num: int) {
    exists e | e in es :: e.uid == uid && e.num == num
  }

  /** The list without the first entry that has the given pid. */
  function WithoutPid(es: seq<Entry>, pid: int): seq<Entry> {
    if es == [] then []
    else if es[0].pid == pid then es[1..]
    else [es[0]] + WithoutPid(es[1..], pid)
  }

  /** The entries whose server has not been reaped, in their old order. */
  function Living(es: seq<Entry>, children: map<int, bool>): seq<Entry> {
    if es == [] then []
    else (if es[0].pid in children then [es[0]] else []) + Living(es[1..], children)
  }

  /** What happens to the daemon. The environment decides the fields. */
  datatype Event =
    /** A client asks for a session; `fork` is what fork returns, negative for failure. */
    | Open(uid: int, gid: int, num: int, permitted: bool, canAllocate: bool, fork: int)
    /** A session server exits. */
    | ChildExits(pid: int)
    /** SIGCHLD is read from the signal descriptor. */
    | Sigchld

  /** A fork never returns the pid of an unreaped child, and only children exit. */
  predicate Possible(s: State, e: Event) {
    match e
    case Open(_, _, _, _, _, fork) => fork < 0 || (fork > 0 && fork !in s.children)
    case ChildExits(pid) => pid in s.children
    case Sigchld => true
  }

  datatype Reply = Done | Failed | Deferred

  /** The reply of the daemon to an open request; `Deferred` leaves it to the new server. */
  function ReplyTo(s: State, e: Event): Reply
    requires e.Open?
  {
    if !e.permitted then Failed
    else if HasKey(s.entries, e.uid, e.num) then Done
    else if !e.canAllocate || e.fork < 0 then Failed
    else Deferred
  }

  function Unreaped(children: map<int, bool>): map<int, bool> {
    map p | p in children && !children[p] :: false
  }

  function Step(s: State, e: Event): State {
    match e
    case Open(uid, gid, num, _, _, fork) =>
      if ReplyTo(s, e) == Deferred
      then State(s.entries + [Entry(uid, gid, num, fork)], s.children[fork := false])
      else s
    case ChildExits(pid) => State(s.entries, s.children[pid := true])
    case Sigchld => State(Living(s.entries, Unreaped(s.children)), Unreaped(s.children))
  }

  predicate DistinctPids(es: seq<Entry>) {
    forall i, j | 0 <= i < j < |es| :: es[i].pid != es[j].pid
  }

  predicate DistinctKeys(es: seq<Entry>) {
    forall i, j | 0 <= i < j < |es| :: es[i].uid != es[j].uid || es[i].num != es[j].num
  }

  /** The entries' pids are the unreaped children. */
  predicate Represents(es: seq<Entry>, children: map<int, bool>) {
    && (forall i | 0 <= i < |es| :: es[i].pid in children)
    && (forall p | p in children :: exists i | 0 <= i < |es| :: es[i].pid == p)
  }

  /** The pool has unique keys and pids and represents exactly the unreaped servers. */
  predicate Faithful(s: State) {
    DistinctPids(s.entries) && DistinctKeys(s.entries) && Represents(s.entries, s.children)
  }

  // ---------------------------------------------------------------- the code

  class Session {
    var next: Session?
    var uid: int
    var gid: int
    var num: int
    var pid: int

    constructor (uid: int, gid: int, num: int)
      ensures this.next == null && this.uid == uid && this.gid == gid && this.num == num
    {
      this.next, this.uid, this.gid, this.num, this.pid := null, uid, gid, num, 0;
    }

    function Value(): Entry
      reads this
    {
      Entry(uid, gid, num, pid)
    }
  }

  ghost function Values(nodes: seq<Session>): (es: seq<Entry>)
    reads nodes
    ensures |es| == |nodes| && forall i | 0 <= i < |nodes| :: es[i] == nodes[i].Value()
  {
    seq(|nodes|, i requires 0 <= i < |nodes| reads nodes => nodes[i].Value())
  }

  function After(nodes: seq<Session>, i: nat): Session? {
    if i + 1 < |nodes| then nodes[i + 1] else null
  }

  class Daemon {
    /** The global `pool`. */
    var pool: Session?
    /** The kernel's view of the daemon's children. */
    var children: map<int, bool>
    /** The nodes reachable from `pool`, in order. */
    ghost var nodes: seq<Session>

    /** The list is the chain of `nodes`: acyclic, ended by a null pointer. */
    ghost predicate Linked()
      reads this, nodes
    {
      && pool == (if nodes == [] then null else nodes[0])
      && (forall i {:trigger nodes[i].next} | 0 <= i < |nodes| :: nodes[i].next == After(nodes, i))
      && (forall i, j | 0 <= i < j < |nodes| :: nodes[i] != nodes[j])
    }

    ghost function Entries(): (es: seq<Entry>)
      reads this, nodes
    {
      Values(nodes)
    }

    ghost function Abstract(): State
      reads this, nodes
    {
      State(Entries(), children)
    }

    constructor ()
      ensures Linked() && Abstract() == State([], map[])
    {
      pool, children, nodes := null, map[], [];
    }

    /** `start_session`, with the replies of its caller `process_request`. */
    method StartSession(uid: int, gid: int, num: int, permitted: bool, canAllocate: bool, fork: int)
      returns (reply: Reply)
      requires Linked() && Possible(Abstract(), Open(uid, gid, num, permitted, canAllocate, fork))
      modifies this, nodes
      ensures Linked() && (forall k | 0 <= k < |nodes| :: nodes[k] in old(nodes) || fresh(nodes[k]))
      ensures var e := Open(uid, gid, num, permitted, canAllocate, fork);
              reply == ReplyTo(old(Abstract()), e) && Abstract() == Step(old(Abstract()), e)
    {
      if !permitted {
        return Failed;
      }
      var last: Session? := null;
      var sp := pool;
      ghost var k := 0;
      while sp != null
        invariant 0 <= k <= |nodes|
        invariant sp == if k < |nodes| then nodes[k] else null
        invariant last == if k > 0 then nodes[k - 1] else null
        invariant forall i | 0 <= i < k :: nodes[i].uid != uid || nodes[i].num != num
        decreases |nodes| - k
      {
        if sp.uid == uid && sp.num == num {
          assert Entries()[k] in Entries();
          return Done;
        }
        last, sp, k := sp, sp.next, k + 1;
      }
      assert !HasKey(Entries(), uid, num);
      if !canAllocate {
        return Failed;
      }
      var s := new Session(uid, gid, num);
      s.pid := fork;
      if fork < 0 {
        return Failed;
      }
      children := children[fork := false];
      if last == null {
        pool := s;
      } else {
        last.next := s;
      }
      nodes := nodes + [s];
      reply := Deferred;
      assert Entries() == old(Entries()) + [Entry(uid, gid, num, fork)];
    }

    /** `*sp = (*sp)->next`, where `sp` points to the link that follows `prev`, or to `pool`. */
    method Unlink(prev: Session?, cur: Session, ghost k: nat)
      requires Linked() && k < |nodes| && cur == nodes[k]
      requires prev == if k > 0 then nodes[k - 1] else null
      modifies this`pool, this`nodes, nodes`next
      ensures Linked() && nodes == old(nodes[..k] + nodes[k + 1..])
      ensures Entries() == old(Entries()[..k] + Entries()[k + 1..])
    {
      ghost var was := nodes;
      if prev == null {
        pool := cur.next;
      } else {
        prev.next := cur.next;
      }
      nodes := was[..k] + was[k + 1..];
      assert forall i | 0 <= i < |nodes| :: nodes[i] == was[if i < k then i else i + 1];
    }

    /** `free_session`: find the node, unlink it, stop. */
    method FreeSession(pid: int)
      requires Linked()
      modifies this`pool, this`nodes, nodes`next
      ensures Linked() && (forall k | 0 <= k < |nodes| :: nodes[k] in old(nodes))
      ensures Entries() == WithoutPid(old(Entries()), pid)
    {
      ghost var es := Entries();
      var prev: Session? := null;
      var sp := pool;
      ghost var k := 0;
      while sp != null && pid != sp.pid
        invariant 0 <= k <= |nodes|
        invariant sp == if k < |nodes| then nodes[k] else null
        invariant prev == if k > 0 then nodes[k - 1] else null
        invariant forall i | 0 <= i < k :: es[i].pid != pid
        decreases |nodes| - k
      {
        prev, sp, k := sp, sp.next, k + 1;
      }
      if sp != null {
        WithoutPidAt(es, pid, k);
        Unlink(prev, sp, k);
      } else {
        WithoutAbsent(es, pid);
      }
    }

    /** One round of `wait_sessions`: `waitpid` reports a child, and its session is freed. */
    method Reap(pid: int)
      requires Linked() && Faithful(Abstract()) && pid in children
      modifies this, nodes
      ensures Linked() && (forall k | 0 <= k < |nodes| :: nodes[k] in old(nodes)) && Faithful(Abstract())
      ensures Abstract() == State(WithoutPid(old(Entries()), pid), old(children) - {pid})
    {
      hide Faithful, WithoutPid;
      ReapKeepsFaithful(Abstract(), pid);
      children := map p | p in children && p != pid :: children[p];
      assert children == old(children) - {pid};
      FreeSession(pid);
    }

    /**
     `wait_sessions`: reap until `waitpid` has nothing more to report. With
     WNOHANG that is when no child has exited; without it, when no child is
     left, for then every reap waits for some child to exit.
     */
    method WaitSessions(noHang: bool)
      requires Linked() && Faithful(Abstract())
      modifies this, nodes
      ensures Linked() && (forall k | 0 <= k < |nodes| :: nodes[k] in old(nodes)) && Faithful(Abstract())
      ensures noHang ==> Abstract() == Step(old(Abstract()), Sigchld)
      ensures !noHang ==> Abstract() == State([], map[]) && pool == null
    {
      hide Faithful, PartlyReaped, Represents;
      ghost var start := Abstract();
      NothingReaped(start, noHang);
      while Reapable(children, noHang)
        invariant Linked() && (forall k | 0 <= k < |nodes| :: nodes[k] in old(nodes)) && Faithful(Abstract())
        invariant PartlyReaped(start, Abstract(), noHang)
        decreases |children|
      {
        var pid :| pid in children && (noHang ==> children[pid]);
        ReapedFurther(start, Abstract(), noHang, pid);
        FewerKeys(children, pid);
        Reap(pid);
      }
      NothingReapable(start, Abstract(), noHang);
    }
  }

  /** `waitpid` has a child to report, now or after waiting for one to exit. */
  predicate Reapable(children: map<int, bool>, noHang: bool) {
    exists p :: p in children && (noHang ==> children[p])
  }

  lemma NothingReapable(start: State, s: State, noHang: bool)
    requires Faithful(s) && PartlyReaped(start, s, noHang) && !Reapable(s.children, noHang)
    ensures noHang ==> s == Step(start, Sigchld)
    ensures !noHang ==> s == State([], map[])
  {
    forall p | p in s.children
      ensures noHang && !s.children[p]
    {
      assert !Reapable(s.children, noHang);
    }
    if noHang {
      assert forall p :: p in s.children <==> p in Unreaped(start.children);
      assert s.children == Unreaped(start.children);
    } else {
      assert s.children == map[];
      if s.entries != [] {
        SomeoneLives(s.entries, s.children);
      }
    }
  }

  lemma SomeoneLives(es: seq<Entry>, children: map<int, bool>)
    requires Represents(es, children) && es != []
    ensures children != map[]
  {
    assert es[0].pid in children;
  }

  /** What `wait_sessions` has done so far: some children reaped, and exactly their sessions freed. */
  predicate PartlyReaped(start: State, s: State, noHang: bool) {
    && (forall p | p in s.children :: p in start.children && s.children[p] == start.children[p])
    && (noHang ==> forall p | p in start.children && !start.children[p] :: p in s.children)
    && s.entries == Living(start.entries, s.children)
  }

  lemma NothingReaped(start: State, noHang: bool)
    requires Faithful(start)
    ensures PartlyReaped(start, start, noHang)
  {
    LivingAll(start.entries, start.children);
  }

  lemma ReapedFurther(start: State, s: State, noHang: bool, pid: int)
    requires Faithful(s) && PartlyReaped(start, s, noHang)
    requires pid in s.children && (noHang ==> s.children[pid])
    ensures PartlyReaped(start, State(WithoutPid(s.entries, pid), s.children - {pid}), noHang)
  {
    LivingLess(start.entries, s.children, pid);
  }

  lemma FewerKeys(m: map<int, bool>, p: int)
    requires p in m
    ensures |m - {p}| < |m|
  {
    assert (m - {p}).Keys == m.Keys - {p};
    assert |(m - {p}).Keys| == |m - {p}| && |m.Keys| == |m|;
  }

  // ------------------------------------------------------------- correctness

  /** When the pids are distinct, dropping one pid keeps every other entry, in order. */
  lemma {:induction false} WithoutPidAt(es: seq<Entry>, pid: int, k: nat)
    requires k < |es| && es[k].pid == pid && forall i | 0 <= i < k :: es[i].pid != pid
    ensures WithoutPid(es, pid) == es[..k] + es[k + 1..]
  {
    if k > 0 {
      WithoutPidAt(es[1..], pid, k - 1);
      assert es[..k] == [es[0]] + es[1..][..k - 1];
    }
  }

  lemma {:induction false} WithoutAbsent(es: seq<Entry>, pid: int)
    requires forall i | 0 <= i < |es| :: es[i].pid != pid
    ensures WithoutPid(es, pid) == es
  {
    if es != [] {
      WithoutAbsent(es[1..], pid);
    }
  }

  lemma RemovalKeepsDistinct(es: seq<Entry>, k: nat)
    requires k < |es| && DistinctPids(es) && DistinctKeys(es)
    ensures DistinctPids(es[..k] + es[k + 1..]) && DistinctKeys(es[..k] + es[k + 1..])
  {
    var r := es[..k] + es[k + 1..];
    assert forall i | 0 <= i < |r| :: r[i] == es[if i < k then i else i + 1];
  }

  lemma RemovalRepresents(es: seq<Entry>, k: nat, children: map<int, bool>)
    requires k < |es| && DistinctPids(es) && Represents(es, children)
    ensures Represents(es[..k] + es[k + 1..], children - {es[k].pid})
  {
    var r := es[..k] + es[k + 1..];
    assert forall i | 0 <= i < |r| :: r[i] == es[if i < k then i else i + 1];
    forall p | p in children - {es[k].pid}
      ensures exists i | 0 <= i < |r| :: r[i].pid == p
    {
      var j :| 0 <= j < |es| && es[j].pid == p;
      assert r[if j < k then j else j - 1].pid == p;
    }
  }

  /** Reaping one child and freeing its session keeps the pool faithful. */
  lemma ReapKeepsFaithful(s: State, pid: int)
    requires Faithful(s) && pid in s.children
    ensures Faithful(State(WithoutPid(s.entries, pid), s.children - {pid}))
  {
    var k :| 0 <= k < |s.entries| && s.entries[k].pid == pid;
    WithoutPidAt(s.entries, pid, k);
    RemovalKeepsDistinct(s.entries, k);
    RemovalRepresents(s.entries, k, s.children);
  }

  lemma {:induction false} LivingAll(es: seq<Entry>, children: map<int, bool>)
    requires forall i | 0 <= i < |es| :: es[i].pid in children
    ensures Living(es, children) == es
  {
    if es != [] {
      LivingAll(es[1..], children);
    }
  }

  lemma {:induction false} LivingMembers(es: seq<Entry>, children: map<int, bool>)
    ensures forall e :: e in Living(es, children) <==> e in es && e.pid in children
  {
    if es != [] {
      LivingMembers(es[1..], children);
      assert es == [es[0]] + es[1..];
    }
  }

  /** Dropping a pid from the survivors is surviving without it. */
  lemma {:induction false} LivingLess(es: seq<Entry>, children: map<int, bool>, pid: int)
    requires DistinctPids(Living(es, children))
    ensures Living(es, children - {pid}) == WithoutPid(Living(es, children), pid)
  {
    if es != [] {
      var rest := Living(es[1..], children);
      var l := Living(es, children);
      if es[0].pid in children {
        assert l == [es[0]] + rest && l[1..] == rest;
        assert DistinctPids(rest) by {
          assert forall i | 0 <= i < |rest| :: rest[i] == l[i + 1];
        }
        LivingLess(es[1..], children, pid);
        if es[0].pid == pid {
          forall i | 0 <= i < |rest|
            ensures rest[i].pid != pid
          {
            assert l[0].pid != l[i + 1].pid;
          }
          WithoutAbsent(rest, pid);
        }
      } else {
        assert l == rest;
        LivingLess(es[1..], children, pid);
      }
    }
  }

  /** A survivor list of a list with distinct keys and pids has them distinct too, and keeps the order. */
  lemma LivingIsSubsequence(es: seq<Entry>, children: map<int, bool>) returns (at: seq<nat>)
    ensures |at| == |Living(es, children)|
    ensures forall i | 0 <= i < |at| :: at[i] < |es| && Living(es, children)[i] == es[at[i]]
    ensures forall i, j | 0 <= i < j < |at| :: at[i] < at[j]
  {
    at := LivingFrom(es, 0, children);
    assert es[0..] == es;
  }

  lemma {:induction false} LivingFrom(es: seq<Entry>, from: nat, children: map<int, bool>) returns (at: seq<nat>)
    requires from <= |es|
    ensures |at| == |Living(es[from..], children)|
    ensures forall i | 0 <= i < |at| :: from <= at[i] < |es| && Living(es[from..], children)[i] == es[at[i]]
    ensures forall i, j | 0 <= i < j < |at| :: at[i] < at[j]
    decreases |es| - from
  {
    if from == |es| {
      at := [];
    } else {
      at := LivingFrom(es, from + 1, children);
      assert es[from..][1..] == es[from + 1..];
      if es[from].pid in children {
        at := [from] + at;
      }
    }
  }

  lemma SigchldKeepsFaithful(s: State)
    requires Faithful(s)
    ensures Faithful(Step(s, Sigchld))
  {
    var c := Unreaped(s.children);
    var l := Living(s.entries, c);
    var at := LivingIsSubsequence(s.entries, c);
    LivingMembers(s.entries, c);
    forall i | 0 <= i < |l|
      ensures l[i].pid in c
    {
      assert l[i] in l;
    }
    forall p | p in c
      ensures exists i | 0 <= i < |l| :: l[i].pid == p
    {
      var i :| 0 <= i < |s.entries| && s.entries[i].pid == p;
      assert s.entries[i] in s.entries;
      assert s.entries[i] in l;
    }
  }

  lemma StepKeepsFaithful(s: State, e: Event)
    requires Faithful(s) && Possible(s, e)
    ensures Faithful(Step(s, e))
  {
    match e {
      case Open(uid, gid, num, _, _, fork) =>
        if ReplyTo(s, e) == Deferred {
          var t := Step(s, e);
          forall i | 0 <= i < |s.entries|
            ensures t.entries[i].uid != uid || t.entries[i].num != num
          {
            assert s.entries[i] in s.entries;
          }
          forall p | p in t.children
            ensures exists i | 0 <= i < |t.entries| :: t.entries[i].pid == p
          {
            if p == fork {
              assert t.entries[|s.entries|].pid == p;
            } else {
              var i :| 0 <= i < |s.entries| && s.entries[i].pid == p;
              assert t.entries[i].pid == p;
            }
          }
        }
      case ChildExits(pid) =>
      case Sigchld => SigchldKeepsFaithful(s);
    }
  }

  /**
   Which requests get a session: a permitted one finds it there exactly if some
   entry has its uid and its number; if none has, memory is there and the fork
   succeeds, it gets a new one at the end of the list, whose server is an
   unreaped child; in all other cases it fails and nothing changes.
   */
  lemma OpenIsExact(s: State, uid: int, gid: int, num: int, permitted: bool, canAllocate: bool, fork: int)
    requires Faithful(s) && Possible(s, Open(uid, gid, num, permitted, canAllocate, fork))
    ensures var e := Open(uid, gid, num, permitted, canAllocate, fork);
            var there := exists i :: 0 <= i < |s.entries| && s.entries[i].uid == uid && s.entries[i].num == num;
            && (ReplyTo(s, e).Done? <==> permitted && there)
            && (ReplyTo(s, e).Deferred? <==> permitted && !there && canAllocate && fork >= 0)
            && (if permitted && !there && canAllocate && fork >= 0 then
                  && Step(s, e).entries == s.entries + [Entry(uid, gid, num, fork)]
                  && Step(s, e).children == s.children[fork := false] && fork !in s.children
                else Step(s, e) == s)
  {
    if HasKey(s.entries, uid, num) {
      var x :| x in s.entries && x.uid == uid && x.num == num;
      var i :| 0 <= i < |s.entries| && s.entries[i] == x;
    } else {
      assert forall i | 0 <= i < |s.entries| :: s.entries[i] in s.entries;
    }
  }

  /** The state after a whole run of the daemon. */
  function Run(events: seq<Event>): State {
    if events == [] then State([], map[])
    else Step(Run(events[..|events| - 1]), events[|events| - 1])
  }

  /** Each event of the run is possible when it happens. */
  ghost predicate PossibleRun(events: seq<Event>) {
    forall n | 0 <= n < |events| :: Possible(Run(events[..n]), events[n])
  }

  /** Over every interleaving of requests, exits and reaps, the pool represents exactly the unreaped servers. */
  lemma {:induction false} EveryRunIsFaithful(events: seq<Event>)
    requires PossibleRun(events)
    ensures Faithful(Run(events))
  {
    if events != [] {
      var n := |events| - 1;
      var front := events[..n];
      forall k | 0 <= k < n
        ensures Possible(Run(front[..k]), front[k])
      {
        assert front[..k] == events[..k];
      }
      EveryRunIsFaithful(front);
      StepKeepsFaithful(Run(front), events[n]);
    }
  }

  /** Reaping changes neither the order nor the contents of what stays: the pool after SIGCHLD is a subsequence of the pool before, missing exactly the exited servers. */
  lemma ReapKeepsOrder(s: State) returns (at: seq<nat>)
    requires Faithful(s)
    ensures var t := Step(s, Sigchld);
            && |at| == |t.entries|
            && (forall i | 0 <= i < |at| :: at[i] < |s.entries| && t.entries[i] == s.entries[at[i]])
            && (forall i, j | 0 <= i < j < |at| :: at[i] < at[j])
            && (forall e | e in s.entries :: e !in t.entries <==> s.children[e.pid])
  {
    var c := Unreaped(s.children);
    at := LivingIsSubsequence(s.entries, c);
    LivingMembers(s.entries, c);
  }

  /** One round of the main loop. */
  method Handle(d: Daemon, e: Event)
    requires d.Linked() && Faithful(d.Abstract()) && Possible(d.Abstract(), e)
    modifies d, d.nodes
    ensures d.Linked() && d.Abstract() == Step(old(d.Abstract()), e)
    ensures forall k | 0 <= k < |d.nodes| :: d.nodes[k] in old(d.nodes) || fresh(d.nodes[k])
  {
    match e {
      case Open(uid, gid, num, permitted, canAllocate, fork) =>
        var _ := d.StartSession(uid, gid, num, permitted, canAllocate, fork);
      case ChildExits(pid) =>
        d.children := d.children[pid := true];
      case Sigchld =>
        d.WaitSessions(true);
    }
  }

  lemma RunPrefix(events: seq<Event>, i: nat)
    requires PossibleRun(events) && i <= |events|
    ensures PossibleRun(events[..i]) && Faithful(Run(events[..i]))
    ensures i < |events| ==> Run(events[..i + 1]) == Step(Run(events[..i]), events[i])
  {
    forall n | 0 <= n < i
      ensures Possible(Run(events[..i][..n]), events[..i][n])
    {
      assert events[..i][..n] == events[..n];
    }
    EveryRunIsFaithful(events[..i]);
    if i < |events| {
      assert events[..i + 1][..i] == events[..i];
    }
  }

  /** The main loop over any possible run of events, and the shutdown after it: no session is left. */
  method Serve(d: Daemon, events: seq<Event>)
    requires d.Linked() && d.Abstract() == State([], map[]) && PossibleRun(events)
    modifies d, d.nodes
    ensures d.Linked() && d.Abstract() == State([], map[]) && d.pool == null
  {
    for i := 0 to |events|
      invariant d.Linked() && d.Abstract() == Run(events[..i])
      invariant forall k | 0 <= k < |d.nodes| :: fresh(d.nodes[k])
    {
      RunPrefix(events, i);
      Handle(d, events[i]);
    }
    RunPrefix(events, |events|);
    d.WaitSessions(false);
  }
}
