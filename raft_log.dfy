/** Log entries, state-machine states and the log queries that the RPC
    handlers and the leader-side progress code share. A log is a sequence
    whose index 0 holds a sentinel entry with term 0 ("no entry"); real
    entries start at index 1. */
module RaftLog {

  /** The application's command: an opaque payload, carried and copied but never inspected. */
  type Command = string

  datatype LogEntry = LogEntry(term: int, command: Command)

  /** States of the two serialized state machines of a peer. `SendAEState` is
      the leader role, `LogNormalState` the only state of the log machine and
      `NotTransferred` the marker a transition returns when it keeps the
      machine in its state. The follower and candidate roles stand for the
      role machine's other states. */
  datatype SMState = NotTransferred | LogNormalState | FollowerState | CandidateState | SendAEState

  const Sentinel: LogEntry := LogEntry(0, "")

  predicate ValidLog(log: seq<LogEntry>) {
    |log| >= 1 && log[0].term == 0
  }

  function LastLogIndex(log: seq<LogEntry>): nat
    requires ValidLog(log)
  {
    |log| - 1
  }

  function LastLogTerm(log: seq<LogEntry>): int
    requires ValidLog(log)
  {
    log[LastLogIndex(log)].term
  }

  /** The up-to-date test of section 5.4.1 of the Raft paper: a log ending in
      (lastLogIndex, lastLogTerm) is at least as up to date as `log` when its
      last term is higher, or equal with an index at least as large. */
  function IsUpToDate(log: seq<LogEntry>, lastLogIndex: int, lastLogTerm: int): (r: bool)
    requires ValidLog(log)
    ensures lastLogTerm < LastLogTerm(log) ==> !r
    ensures lastLogTerm > LastLogTerm(log) ==> r
    ensures lastLogTerm == LastLogTerm(log) ==> (r <==> lastLogIndex >= LastLogIndex(log))
  {
    lastLogTerm > LastLogTerm(log) || (lastLogTerm == LastLogTerm(log) && lastLogIndex >= LastLogIndex(log))
  }

  /** The first index of the run of equal terms that contains index i. */
  function ConflictPrevIndex(log: seq<LogEntry>, i: nat): (r: nat)
    requires ValidLog(log) && i < |log|
    ensures r <= i
    ensures forall k :: r <= k <= i ==> log[k].term == log[i].term
    ensures r == 0 || log[r - 1].term != log[i].term
    decreases i
  {
    if i > 0 && log[i - 1].term == log[i].term then ConflictPrevIndex(log, i - 1) else i
  }

  /** The last index at or below k whose entry has term t, or 0 when there is none. */
  function LastIndexOfTerm(log: seq<LogEntry>, t: int, k: nat): (r: nat)
    requires k < |log|
    ensures r <= k
    ensures r > 0 ==> log[r].term == t
    ensures forall j :: r < j <= k ==> log[j].term != t
    decreases k
  {
    if k == 0 || log[k].term == t then k else LastIndexOfTerm(log, t, k - 1)
  }

  /** The last index of the log whose entry has term t; the sentinel index 0
      when no real entry has that term. */
  function BackTrackLogTerm(log: seq<LogEntry>, t: int): (r: nat)
    requires ValidLog(log)
    ensures r <= LastLogIndex(log)
    ensures r > 0 ==> log[r].term == t
    ensures forall j :: r < j < |log| ==> log[j].term != t
  {
    LastIndexOfTerm(log, t, LastLogIndex(log))
  }
}
