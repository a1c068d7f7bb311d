/** The decision logic of the two inbound RPC handlers and the role snapshot
    query. Each handler is a function from a consistent snapshot of the peer's
    state and the RPC arguments to the reply and the events it issues; an
    issued event is the transition the handler enqueues for one of the two
    state machines, returned here as a value instead of being processed. */
module RaftRpc {
  import opened RaftLog

  /** The value of votedFor that means "no vote cast in this term". */
  const NoVote: int := -1

  /** A read snapshot of the role state machine. */
  datatype RoleState = RoleState(currentTerm: int, votedFor: int, curState: SMState)

  /** Transitions a handler can enqueue: a larger-term observation for the role
      machine, or a merge of remote entries for the log machine. */
  datatype Event =
    | LargerTerm(term: int, originator: int)
    | NewAE(prevLogIndex: int, entries: seq<LogEntry>, leaderCommit: int)

  datatype RequestVoteArgs = RequestVoteArgs(term: int, candidateId: int, lastLogIndex: int, lastLogTerm: int)
  datatype RequestVoteReply = RequestVoteReply(term: int, voteGranted: bool)

  datatype AppendEntriesArgs =
    AppendEntriesArgs(term: int, leaderId: int, prevLogIndex: int, prevLogTerm: int,
                      entries: seq<LogEntry>, leaderCommit: int)
  datatype AppendEntriesReply =
    AppendEntriesReply(term: int, success: bool, conflictPrevTerm: int, conflictPrevIndex: int)

  /** What a handler produces: the reply it fills in and the events it issues, in order. */
  datatype Handled<R> = Handled(reply: R, issued: seq<Event>)

  /** The term and whether this peer believes it is the leader. */
  function GetState(m: RoleState): (r: (int, bool))
    ensures r.0 == m.currentTerm
    ensures r.1 <==> m.curState == SendAEState
  {
    (m.currentTerm, m.curState == SendAEState)
  }

  /** The RequestVote handler. The reply carries the term read on entry, before
      any larger-term event it issues is processed. */
  function RequestVote(m: RoleState, log: seq<LogEntry>, args: RequestVoteArgs): (h: Handled<RequestVoteReply>)
    requires ValidLog(log)
    ensures h.reply.term == m.currentTerm
    ensures args.term < m.currentTerm ==> !h.reply.voteGranted && h.issued == []
    ensures args.term == m.currentTerm ==>
      (h.reply.voteGranted <==>
        (m.votedFor == NoVote || m.votedFor == args.candidateId) && IsUpToDate(log, args.lastLogIndex, args.lastLogTerm))
    ensures args.term > m.currentTerm ==>
      (h.reply.voteGranted <==> IsUpToDate(log, args.lastLogIndex, args.lastLogTerm))
    ensures forall e :: e in h.issued ==> e == LargerTerm(args.term, args.candidateId)
    ensures |h.issued| == (if args.term > m.currentTerm then 1 else 0) + (if h.reply.voteGranted then 1 else 0)
  {
    var stateOk :=
      if args.term > m.currentTerm then true
      else if args.term < m.currentTerm then false
      else m.votedFor == NoVote || m.votedFor == args.candidateId;
    var logOk := IsUpToDate(log, args.lastLogIndex, args.lastLogTerm);
    var granted := stateOk && logOk;
    var observed := if args.term > m.currentTerm then [LargerTerm(args.term, args.candidateId)] else [];
    Handled(RequestVoteReply(m.currentTerm, granted),
            observed + (if granted then [LargerTerm(args.term, args.candidateId)] else []))
  }

  /** A voter that has already voted in its current term grants that term's
      vote to no other candidate. */
  lemma OneVotePerTerm(m: RoleState, log: seq<LogEntry>, a1: RequestVoteArgs, a2: RequestVoteArgs)
    requires ValidLog(log)
    requires m.votedFor != NoVote
    requires a1.term == m.currentTerm && a2.term == m.currentTerm
    requires RequestVote(m, log, a1).reply.voteGranted && RequestVote(m, log, a2).reply.voteGranted
    ensures a1.candidateId == a2.candidateId == m.votedFor
  {
  }

  /** The vote is recorded only when the issued larger-term event is processed,
      so two candidates at the same new term that reach a voter holding the
      same snapshot are both granted. */
  lemma HigherTermGrantsBoth()
    ensures var m := RoleState(5, NoVote, FollowerState);
      && RequestVote(m, [Sentinel], RequestVoteArgs(6, 1, 0, 0)).reply.voteGranted
      && RequestVote(m, [Sentinel], RequestVoteArgs(6, 2, 0, 0)).reply.voteGranted
  {
  }

  /** A candidate whose last entry equals the voter's own last entry is always
      up to date, so at a term not below the voter's it is refused only for
      a vote already cast for someone else. */
  lemma OwnLogIsUpToDate(m: RoleState, log: seq<LogEntry>, args: RequestVoteArgs)
    requires ValidLog(log)
    requires args.lastLogIndex == LastLogIndex(log) && args.lastLogTerm == LastLogTerm(log)
    requires args.term > m.currentTerm || (args.term == m.currentTerm && m.votedFor in {NoVote, args.candidateId})
    ensures RequestVote(m, log, args).reply.voteGranted
  {
  }

  /** The consistency check: the log holds an entry at prevLogIndex whose term is prevLogTerm. */
  function Consistent(log: seq<LogEntry>, args: AppendEntriesArgs): (r: bool)
    requires ValidLog(log)
    ensures r ==> 0 <= args.prevLogIndex <= LastLogIndex(log) && log[args.prevLogIndex].term == args.prevLogTerm
    ensures args.prevLogIndex > LastLogIndex(log) || args.prevLogIndex < 0 ==> !r
    ensures args.prevLogIndex == 0 ==> (r <==> args.prevLogTerm == 0)
  {
    0 <= args.prevLogIndex <= LastLogIndex(log) && log[args.prevLogIndex].term == args.prevLogTerm
  }

  function IsMerge(e: Event): bool { e.NewAE? }

  /** The AppendEntries handler as written: a term above currentTerm sets
      Success before the consistency check, and a failing check returns
      without clearing it. Fields the handler does not set keep their zero
      value. */
  function AppendEntries(m: RoleState, log: seq<LogEntry>, args: AppendEntriesArgs): (h: Handled<AppendEntriesReply>)
    requires ValidLog(log)
    requires args.term < m.currentTerm || args.prevLogIndex >= 0
    ensures h.reply.term == m.currentTerm
    ensures args.term < m.currentTerm ==> !h.reply.success && h.issued == []
    ensures args.term > m.currentTerm ==> |h.issued| > 0 && h.issued[0] == LargerTerm(args.term, args.leaderId)
    ensures args.term >= m.currentTerm && args.prevLogIndex > LastLogIndex(log) ==>
      && h.reply.conflictPrevIndex == LastLogIndex(log)
      && h.reply.conflictPrevTerm == LastLogTerm(log)
      && (forall e :: e in h.issued ==> !IsMerge(e))
    ensures args.term >= m.currentTerm && args.prevLogIndex <= LastLogIndex(log) && !Consistent(log, args) ==>
      && 0 <= h.reply.conflictPrevIndex <= args.prevLogIndex
      && h.reply.conflictPrevTerm == log[h.reply.conflictPrevIndex].term == log[args.prevLogIndex].term
      && (forall k :: h.reply.conflictPrevIndex <= k <= args.prevLogIndex ==> log[k].term == h.reply.conflictPrevTerm)
      && (h.reply.conflictPrevIndex == 0 || log[h.reply.conflictPrevIndex - 1].term != h.reply.conflictPrevTerm)
      && (forall e :: e in h.issued ==> !IsMerge(e))
    ensures (exists e :: e in h.issued && IsMerge(e)) <==> args.term >= m.currentTerm && Consistent(log, args)
    ensures args.term >= m.currentTerm && Consistent(log, args) ==>
      h.reply.success && h.issued[|h.issued| - 1] == NewAE(args.prevLogIndex, args.entries, args.leaderCommit)
    ensures h.reply.success <==> args.term > m.currentTerm || (args.term == m.currentTerm && Consistent(log, args))
    ensures forall e :: e in h.issued && !IsMerge(e) ==> e == LargerTerm(args.term, args.leaderId)
    ensures |h.issued| == (if args.term > m.currentTerm then 1 else 0) + (if args.term >= m.currentTerm && Consistent(log, args) then 1 else 0)
  {
    var higher := args.term > m.currentTerm;
    var observed := if higher then [LargerTerm(args.term, args.leaderId)] else [];
    if args.term < m.currentTerm then
      Handled(AppendEntriesReply(m.currentTerm, false, 0, 0), [])
    else if args.prevLogIndex > LastLogIndex(log) then
      var ci := LastLogIndex(log);
      Handled(AppendEntriesReply(m.currentTerm, higher, log[ci].term, ci), observed)
    else if args.prevLogTerm != log[args.prevLogIndex].term then
      var ci := ConflictPrevIndex(log, args.prevLogIndex);
      Handled(AppendEntriesReply(m.currentTerm, higher, log[ci].term, ci), observed)
    else
      var merge := NewAE(args.prevLogIndex, args.entries, args.leaderCommit);
      assert IsMerge(merge) && merge in observed + [merge];
      Handled(AppendEntriesReply(m.currentTerm, true, 0, 0), observed + [merge])
  }

  /** The handler as the protocol intends it: identical, except that Success
      is reported exactly when the entries are merged. */
  function AppendEntriesChecked(m: RoleState, log: seq<LogEntry>, args: AppendEntriesArgs): (h: Handled<AppendEntriesReply>)
    requires ValidLog(log)
    requires args.term < m.currentTerm || args.prevLogIndex >= 0
    ensures h.reply.success <==> (exists e :: e in h.issued && IsMerge(e))
    ensures h.reply.success <==> args.term >= m.currentTerm && Consistent(log, args)
    ensures h.issued == AppendEntries(m, log, args).issued
    ensures h.reply == AppendEntries(m, log, args).reply.(success := h.reply.success)
  {
    var w := AppendEntries(m, log, args);
    Handled(w.reply.(success := args.term >= m.currentTerm && Consistent(log, args)), w.issued)
  }

  /** As written, a request with a higher term that fails the consistency check
      is answered with Success although nothing is merged: here the follower's
      log holds only the sentinel and the leader probes index 5. */
  lemma SuccessWithoutMerge()
    ensures var h := AppendEntries(RoleState(1, NoVote, FollowerState), [Sentinel], AppendEntriesArgs(2, 0, 5, 2, [], 0));
      h.reply.success && h.issued == [LargerTerm(2, 0)] && !Consistent([Sentinel], AppendEntriesArgs(2, 0, 5, 2, [], 0))
  {
  }

  /** A voter at term 5 that has not voted, whose log ends with a term-1 entry
      at index 2, grants its vote to a candidate whose log ends at index 2 with
      term 2, and records the vote through one larger-term event. */
  lemma GrantForHigherLastTerm()
    ensures var h := RequestVote(RoleState(5, NoVote, FollowerState),
                                 [Sentinel, LogEntry(1, "a"), LogEntry(1, "b")],
                                 RequestVoteArgs(5, 1, 2, 2));
      h.reply == RequestVoteReply(5, true) && h.issued == [LargerTerm(5, 1)]
  {
  }
}
