/** The drain loop of the tether's child reaper
    (lib/tether/tether_linux.go, childReaper, lines 57-85).

    Each SIGCHLD makes the reaper call Wait4 with WNOHANG until no child is
    left to collect. Here the Wait4 results of one notification are a
    finite input sequence; the loop reads them in order. The correlation
    table maps process IDs to the sessions they were launched for. */
module TetherReaper {
  import opened Wrappers

  /** What Go's syscall.WaitStatus reports: a normal exit with its code,
      or a status change that is not an exit (Exited() false). The reaper
      passes WNOHANG without WUNTRACED or WCONTINUED, so the kernel reports
      no stops or continues: such a result is a death by signal, and the
      kernel has already reaped that child. */
  datatype WaitStatus = Exited(code: int) | OtherChange

  /** The error Wait4 returned: none, ECHILD (no children left), or another errno. */
  datatype Errno = NoError | ECHILD | OtherErrno(errno: nat)

  /** One Wait4 call: the pid it returned, the status it filled in, its error. */
  datatype WaitResult = WaitResult(pid: int, status: WaitStatus, err: Errno)

  /** A supervised process; only its exit status matters to the reaper. */
  class Session {
    const id: string
    var exitStatus: int

    constructor (id: string)
      ensures this.id == id && exitStatus == 0
    {
      this.id := id;
      exitStatus := 0;
    }
  }

  /** One handoff of a reaped session to handleSessionExit. */
  datatype Exit = Exit(pid: int, session: Session, code: int)

  /** The value of one drain: the correlation table left behind and the
      handoffs made, in order. */
  datatype Drained = Drained(table: map<int, Session>, exits: seq<Exit>)

  /** Wait4 reports that there is nothing more to collect. */
  predicate EndsBatch(w: WaitResult)
  {
    w.pid == 0 || w.err == ECHILD
  }

  /** Wait4 collected an exited process. */
  predicate IsExitReport(w: WaitResult)
  {
    w.err == NoError && w.status.Exited?
  }

  /** The drain loop over a sequence of Wait4 results, starting from `table`. */
  function Drain(table: map<int, Session>, results: seq<WaitResult>): Drained
    decreases |results|
  {
    if results == [] || EndsBatch(results[0]) then Drained(table, [])
    else
      var w := results[0];
      if IsExitReport(w) && w.pid in table then
        var rest := Drain(table - {w.pid}, results[1..]);
        Drained(rest.table, [Exit(w.pid, table[w.pid], w.status.code)] + rest.exits)
      else Drain(table, results[1..])
  }

  /** The sessions handed to handleSessionExit by a sequence of handoffs. */
  function Sessions(exits: seq<Exit>): (r: seq<Session>)
    ensures |r| == |exits|
  {
    if exits == [] then [] else [exits[0].session] + Sessions(exits[1..])
  }

  /** A session's exit status after a sequence of handoffs, starting from
      `prior`: the code of its last handoff, if any. */
  function StatusAfter(exits: seq<Exit>, s: Session, prior: int): int
  {
    if exits == [] then prior
    else StatusAfter(exits[1..], s, if exits[0].session == s then exits[0].code else prior)
  }

  /** The exit code Wait4 first reported for `pid` in this notification's
      batch (before the result that ends it), if any. */
  function ReportedExit(results: seq<WaitResult>, pid: int): Option<int>
  {
    if results == [] || EndsBatch(results[0]) then None
    else if IsExitReport(results[0]) && results[0].pid == pid then Some(results[0].status.code)
    else ReportedExit(results[1..], pid)
  }

  /** How many handoffs were made for `pid`. */
  function CountPid(exits: seq<Exit>, pid: int): nat
  {
    if exits == [] then 0
    else (if exits[0].pid == pid then 1 else 0) + CountPid(exits[1..], pid)
  }

  /** No two pids of the table belong to the same session. */
  predicate OneSessionPerPid(table: map<int, Session>)
  {
    forall p, q | p in table && q in table && p != q :: table[p] != table[q]
  }

  /** The table left by a drain is the old table without exactly the pids
      reported as exited in the batch; the other entries are untouched. */
  lemma {:induction false} DrainRemovesReaped(table: map<int, Session>, results: seq<WaitResult>)
    ensures forall p :: p in Drain(table, results).table <==> p in table && ReportedExit(results, p).None?
    ensures forall p | p in Drain(table, results).table :: Drain(table, results).table[p] == table[p]
    decreases |results|
  {
    if results != [] && !EndsBatch(results[0]) {
      var w := results[0];
      if IsExitReport(w) && w.pid in table {
        DrainRemovesReaped(table - {w.pid}, results[1..]);
      } else {
        DrainRemovesReaped(table, results[1..]);
      }
    }
  }

  /** Every handoff is for a pid of the table, with that pid's session and
      the code first reported for it; each pid of the table is handed off
      exactly once if it was reported as exited, and never otherwise. */
  lemma {:induction false} DrainHandsOffOnce(table: map<int, Session>, results: seq<WaitResult>)
    ensures forall k | 0 <= k < |Drain(table, results).exits| ::
              var e := Drain(table, results).exits[k];
              e.pid in table && e.session == table[e.pid] && ReportedExit(results, e.pid) == Some(e.code)
    ensures forall p | p in table ::
              CountPid(Drain(table, results).exits, p) == if ReportedExit(results, p).Some? then 1 else 0
    decreases |results|
  {
    if results != [] && !EndsBatch(results[0]) {
      var w := results[0];
      if IsExitReport(w) && w.pid in table {
        var rest := Drain(table - {w.pid}, results[1..]);
        DrainHandsOffOnce(table - {w.pid}, results[1..]);
        var exits := Drain(table, results).exits;
        assert exits == [Exit(w.pid, table[w.pid], w.status.code)] + rest.exits;
        assert exits[1..] == rest.exits;
        NoHandoffFor(rest.exits, w.pid);
      } else {
        DrainHandsOffOnce(table, results[1..]);
      }
    }
  }

  /** A pid that no handoff names is counted zero times. */
  lemma {:induction false} NoHandoffFor(exits: seq<Exit>, pid: int)
    requires forall k | 0 <= k < |exits| :: exits[k].pid != pid
    ensures CountPid(exits, pid) == 0
  {
    if exits != [] {
      NoHandoffFor(exits[1..], pid);
    }
  }

  /** A session that no handoff names keeps its status. */
  lemma {:induction false} StatusUntouched(exits: seq<Exit>, s: Session, prior: int)
    requires forall k | 0 <= k < |exits| :: exits[k].session != s
    ensures StatusAfter(exits, s, prior) == prior
  {
    if exits != [] {
      StatusUntouched(exits[1..], s, prior);
    }
  }

  /** When each session has one pid, a session's exit status after the
      drain is exactly the code first reported for its pid, or unchanged
      when its pid was not reported as exited. */
  lemma {:induction false} DrainSetsExitStatus(table: map<int, Session>, results: seq<WaitResult>, pid: int, prior: int)
    requires OneSessionPerPid(table)
    requires pid in table
    ensures StatusAfter(Drain(table, results).exits, table[pid], prior)
            == match ReportedExit(results, pid) case Some(code) => code case None => prior
    decreases |results|
  {
    if results != [] && !EndsBatch(results[0]) {
      var w := results[0];
      if IsExitReport(w) && w.pid in table {
        var rest := Drain(table - {w.pid}, results[1..]);
        var exits := Drain(table, results).exits;
        assert exits[0].session == table[w.pid] && exits[1..] == rest.exits;
        if w.pid == pid {
          DrainHandsOffOnce(table - {pid}, results[1..]);
          StatusUntouched(rest.exits, table[pid], w.status.code);
        } else {
          DrainSetsExitStatus(table - {w.pid}, results[1..], pid, prior);
        }
      } else {
        DrainSetsExitStatus(table, results[1..], pid, prior);
      }
    }
  }

  /** Once a pid has been reaped, a report for it in a later batch finds no
      entry: no handoff names it, and its session is not handed off again. */
  lemma ReapedPidIgnoredLater(table: map<int, Session>, first: seq<WaitResult>, later: seq<WaitResult>, pid: int)
    requires OneSessionPerPid(table)
    requires pid in table && ReportedExit(first, pid).Some?
    ensures pid !in Drain(table, first).table
    ensures CountPid(Drain(Drain(table, first).table, later).exits, pid) == 0
    ensures forall k | 0 <= k < |Drain(Drain(table, first).table, later).exits| ::
              Drain(Drain(table, first).table, later).exits[k].session != table[pid]
  {
    var left := Drain(table, first).table;
    DrainRemovesReaped(table, first);
    DrainHandsOffOnce(left, later);
    NoHandoffFor(Drain(left, later).exits, pid);
  }

  /** A result that is not an exit of a correlated pid, and does not end the
      batch, changes neither the table nor any session: a non-exit status
      change, an adopted zombie, or a Wait4 error other than ECHILD. */
  lemma IgnoredResult(table: map<int, Session>, w: WaitResult, rest: seq<WaitResult>)
    requires !EndsBatch(w)
    requires !IsExitReport(w) || w.pid !in table
    ensures Drain(table, [w] + rest) == Drain(table, rest)
  {
    assert ([w] + rest)[1..] == rest;
  }

  /** A child killed by a signal is reaped by Wait4 but skipped by the
      loop: its pid stays in the correlation table and its session is not
      handed to handleSessionExit, so nothing records its end. */
  lemma SignalledChildStaysCorrelated(table: map<int, Session>, pid: int)
    requires pid != 0 && pid in table
    ensures Drain(table, [WaitResult(pid, OtherChange, NoError)]) == Drained(table, [])
    ensures pid in Drain(table, [WaitResult(pid, OtherChange, NoError)]).table
  {
  }

  /** The batch ends at the first result with pid 0 or ECHILD: whatever
      follows it is never looked at. */
  lemma {:induction false} DrainStopsAtEnd(table: map<int, Session>, results: seq<WaitResult>, end: nat, after: seq<WaitResult>)
    requires end < |results| && EndsBatch(results[end])
    ensures Drain(table, results) == Drain(table, results[..end])
    ensures Drain(table, results) == Drain(table, results[..end + 1] + after)
    decreases end
  {
    if end > 0 && !EndsBatch(results[0]) {
      var w := results[0];
      assert results[..end][0] == w && results[..end][1..] == results[1..][..end - 1];
      assert (results[..end + 1] + after)[0] == w;
      assert (results[..end + 1] + after)[1..] == results[1..][..end] + after;
      if IsExitReport(w) && w.pid in table {
        DrainStopsAtEnd(table - {w.pid}, results[1..], end - 1, after);
      } else {
        DrainStopsAtEnd(table, results[1..], end - 1, after);
      }
    } else if end > 0 {
      assert results[..end][0] == results[0];
      assert (results[..end + 1] + after)[0] == results[0];
    } else {
      assert (results[..end + 1] + after)[0] == results[0];
    }
  }

  /** Until the batch ends the loop keeps going: draining two stretches in a
      row, the first without an end, is draining them joined. */
  lemma {:induction false} DrainContinues(table: map<int, Session>, first: seq<WaitResult>, second: seq<WaitResult>)
    requires forall k | 0 <= k < |first| :: !EndsBatch(first[k])
    ensures Drain(table, first + second).table == Drain(Drain(table, first).table, second).table
    ensures Drain(table, first + second).exits
            == Drain(table, first).exits + Drain(Drain(table, first).table, second).exits
    decreases |first|
  {
    if first == [] {
      assert first + second == second;
    } else {
      var w := first[0];
      assert (first + second)[0] == w && (first + second)[1..] == first[1..] + second;
      if IsExitReport(w) && w.pid in table {
        DrainContinues(table - {w.pid}, first[1..], second);
      } else {
        DrainContinues(table, first[1..], second);
      }
    }
  }

  /** The tether state the reaper touches: the pid-to-session correlation
      table and a record of the sessions handed to handleSessionExit. */
  class Tether {
    var childPids: map<int, Session>
    var exitHandled: seq<Session>

    constructor (pids: map<int, Session>)
      ensures childPids == pids && exitHandled == []
    {
      childPids := pids;
      exitHandled := [];
    }

    /** removeChildPid: takes a pid out of the correlation table and returns
        the session it belonged to, if any. */
    method RemoveChildPid(pid: int) returns (session: Session?, ok: bool)
      modifies this`childPids
      ensures ok <==> pid in old(childPids)
      ensures ok ==> session == old(childPids)[pid]
      ensures childPids == old(childPids) - {pid}
    {
      ok := pid in childPids;
      session := if ok then childPids[pid] else null;
      childPids := childPids - {pid};
    }

    /** handleSessionExit, whose body is not part of this model: the call is recorded. */
    method HandleSessionExit(session: Session)
      modifies this`exitHandled
      ensures exitHandled == old(exitHandled) + [session]
    {
      exitHandled := exitHandled + [session];
    }

    /** The drain loop for one notification, over the Wait4 results `results`.
        The table, the handoffs and every correlated session's exit status
        end up as Drain describes; nothing else changes. */
    method ReapChildren(results: seq<WaitResult>)
      modifies this, childPids.Values
      ensures childPids == Drain(old(childPids), results).table
      ensures exitHandled == old(exitHandled) + Sessions(Drain(old(childPids), results).exits)
      ensures forall s | s in old(childPids).Values ::
                s.exitStatus == StatusAfter(Drain(old(childPids), results).exits, s, old(s.exitStatus))
    {
      ghost var table0 := childPids;
      ghost var whole := Drain(table0, results);
      var i := 0;
      while i < |results|
        invariant 0 <= i <= |results|
        invariant forall p | p in childPids :: p in table0 && childPids[p] == table0[p]
        invariant Drain(childPids, results[i..]).table == whole.table
        invariant exitHandled + Sessions(Drain(childPids, results[i..]).exits)
                  == old(exitHandled) + Sessions(whole.exits)
        invariant forall s | s in table0.Values ::
                    StatusAfter(Drain(childPids, results[i..]).exits, s, s.exitStatus)
                    == StatusAfter(whole.exits, s, old(s.exitStatus))
      {
        var w := results[i];
        assert results[i..][0] == w && results[i..][1..] == results[i + 1..];
        ghost var before := childPids;
        if w.pid == 0 || w.err == ECHILD {
          break;
        }
        if w.err == NoError {
          if !w.status.Exited? {
            assert Drain(before, results[i..]) == Drain(before, results[i + 1..]);
            i := i + 1;
            continue;
          }
          var session, ok := RemoveChildPid(w.pid);
          if ok {
            assert table0[w.pid] in table0.Values;
            ghost var rest := Drain(childPids, results[i + 1..]);
            ghost var e := Exit(w.pid, session, w.status.code);
            assert ([e] + rest.exits)[1..] == rest.exits;
            assert Drain(before, results[i..]) == Drained(rest.table, [e] + rest.exits);
            session.exitStatus := w.status.code;
            HandleSessionExit(session);

          } else {
            assert childPids == before;
            assert Drain(before, results[i..]) == Drain(before, results[i + 1..]);
          }
        } else {
          assert Drain(before, results[i..]) == Drain(before, results[i + 1..]);
        }
        i := i + 1;
      }
    }
  }

  /** A client: a session launched as pid 42 exits with code 7; the reaper
      records the code and hands the session off once, and a second report
      for pid 42 changes nothing. */
  method ReapOnce()
  {
    var s := new Session("s1");
    var t := new Tether(map[42 := s]);
    var batch := [WaitResult(42, Exited(7), NoError), WaitResult(0, OtherChange, NoError)];
    assert batch[1..] == [WaitResult(0, OtherChange, NoError)];
    assert map[42 := s] - {42} == map[];
    assert Drain(map[42 := s], batch) == Drained(map[], [Exit(42, s, 7)]);
    assert s in map[42 := s].Values;
    assert [Exit(42, s, 7)][1..] == [];
    assert StatusAfter([Exit(42, s, 7)], s, s.exitStatus) == 7;
    t.ReapChildren(batch);
    assert t.childPids == map[];
    assert t.exitHandled == [s];
    assert s.exitStatus == 7;

    t.ReapChildren([WaitResult(42, Exited(9), NoError), WaitResult(-1, OtherChange, ECHILD)]);
    assert s.exitStatus == 7 && t.exitHandled == [s];
  }
}
