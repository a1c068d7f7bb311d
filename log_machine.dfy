/** The log state machine of one peer: its log buffer, commit index and the
    leader's per-follower nextIndex/matchIndex arrays, updated in place by the
    transitions the machine processes one at a time. The role machine's term
    and role are read as a snapshot and passed in. */
module LogMachine {
  import opened RaftLog
  import opened RaftRpc
  import opened Replication

  /** The AEReplied transition: a follower's answer to an AppendEntries that
      carried `count` entries. */
  datatype AEReplied = AEReplied(server: int, count: int, success: bool, conflictPrevTerm: int, conflictPrevIndex: int)

  /** The outcome of a transition: the state it moves to, or a fatal stop of
      the peer when it arrives in a state it does not expect. */
  datatype TransferResult = Transferred(next: SMState) | Fatal

  class LogStateMachine {
    var entries: seq<LogEntry>
    var commitIndex: nat
    const nextIndex: array<int>
    const matchIndex: array<int>
    const me: nat

    ghost predicate Valid()
      reads this
    {
      && ValidLog(entries)
      && nextIndex.Length == matchIndex.Length
      && me < matchIndex.Length
      && nextIndex != matchIndex
      && commitIndex <= |entries| - 1
    }

    function LastLogIndex(): nat
      reads this
      requires Valid()
    {
      |entries| - 1
    }

    function PeerCount(): nat
      reads this
    {
      matchIndex.Length
    }

    /** A fresh log machine: only the sentinel entry, nothing committed, every
        follower probed from index 1 with nothing matched. */
    constructor (peerCount: nat, me: nat)
      requires me < peerCount
      ensures Valid() && fresh(nextIndex) && fresh(matchIndex)
      ensures entries == [Sentinel] && commitIndex == 0 && this.me == me && PeerCount() == peerCount
      ensures forall i :: 0 <= i < peerCount ==> nextIndex[i] == 1 && matchIndex[i] == 0
    {
      entries := [Sentinel];
      commitIndex := 0;
      nextIndex := new int[peerCount](_ => 1);
      matchIndex := new int[peerCount](_ => 0);
      this.me := me;
    }

    /** Appends one entry to the end of the log. */
    method AppendLog(e: LogEntry)
      requires Valid()
      modifies this`entries
      ensures Valid()
      ensures entries == old(entries) + [e]
      ensures LastLogIndex() == old(LastLogIndex()) + 1
    {
      entries := entries + [e];
    }

    /** Submits a command: the returned index is the one the entry takes, the
        returned term and leadership are those of the role snapshot, and only a
        leader appends the entry. */
    method Start(role: RoleState, command: Command) returns (index: int, term: int, isLeader: bool)
      requires Valid()
      modifies this`entries
      ensures Valid()
      ensures index == old(LastLogIndex()) + 1
      ensures (term, isLeader) == GetState(role)
      ensures isLeader ==> entries == old(entries) + [LogEntry(term, command)]
      ensures isLeader ==> LastLogIndex() == index && entries[index].term == term && entries[..index] == old(entries)
      ensures !isLeader ==> entries == old(entries)
    {
      isLeader := role.curState == SendAEState;
      term := role.currentTerm;
      index := LastLogIndex() + 1;
      if isLeader {
        AppendLog(LogEntry(role.currentTerm, command));
      }
    }

    /** The number of peers other than this one that have matched entry n, when
        entry n has the current term. */
    method CountAgreeing(n: nat, currentTerm: int) returns (agreeCount: nat)
      requires Valid() && n <= LastLogIndex()
      ensures agreeCount == AgreeCount(matchIndex[..], me, n, entries[n].term == currentTerm, PeerCount())
    {
      agreeCount := 0;
      for i := 0 to PeerCount()
        invariant agreeCount == AgreeCount(matchIndex[..], me, n, entries[n].term == currentTerm, i)
      {
        if i == me {
          continue;
        }
        if matchIndex[i] >= n && entries[n].term == currentTerm {
          agreeCount := agreeCount + 1;
        }
      }
    }

    /** Commit advancement: scans every index above the commit index and
        commits the highest one a majority agrees on; `applied` reports whether
        the committed entries were handed on for application, which happens
        exactly when the commit index moved. */
    method TryCommit(currentTerm: int) returns (applied: bool)
      requires Valid()
      modifies this`commitIndex
      ensures Valid()
      ensures commitIndex == CommitScan(entries, matchIndex[..], me, currentTerm, old(commitIndex), LastLogIndex())
      ensures old(commitIndex) + 1 > LastLogIndex() ==> commitIndex == old(commitIndex) && !applied
      ensures old(commitIndex) <= commitIndex <= LastLogIndex()
      ensures applied <==> commitIndex > old(commitIndex)
    {
      var n := commitIndex + 1;
      if n > LastLogIndex() {
        return false;
      }
      var oldCommit := commitIndex;
      while true
        invariant Valid()
        invariant oldCommit + 1 <= n <= LastLogIndex()
        invariant commitIndex == CommitScan(entries, matchIndex[..], me, currentTerm, oldCommit, n - 1)
        decreases LastLogIndex() - n
      {
        var agreeCount := CountAgreeing(n, currentTerm);
        if agreeCount + 1 > PeerCount() / 2 {
          commitIndex := n;
        }
        n := n + 1;
        if n > LastLogIndex() {
          break;
        }
      }
      applied := commitIndex > oldCommit;
    }

    /** A successful reply: the follower's nextIndex moves on by the number of
        entries sent, its matchIndex to the entry before it, and the commit
        index is recomputed. */
    method DoSuccess(trans: AEReplied, currentTerm: int) returns (applied: bool)
      requires Valid() && 0 <= trans.server < PeerCount()
      modifies nextIndex, matchIndex, this`commitIndex
      ensures Valid()
      ensures nextIndex[trans.server] == old(nextIndex[trans.server]) + trans.count
      ensures matchIndex[trans.server] == nextIndex[trans.server] - 1
      ensures nextIndex[..] == old(nextIndex[..])[trans.server := nextIndex[trans.server]]
      ensures matchIndex[..] == old(matchIndex[..])[trans.server := matchIndex[trans.server]]
      ensures commitIndex == CommitScan(entries, matchIndex[..], me, currentTerm, old(commitIndex), LastLogIndex())
      ensures applied <==> commitIndex > old(commitIndex)
    {
      nextIndex[trans.server] := nextIndex[trans.server] + trans.count;
      matchIndex[trans.server] := nextIndex[trans.server] - 1;
      applied := TryCommit(currentTerm);
    }

    /** A rejected reply: the follower's nextIndex jumps back by fast
        backtracking; matchIndex and the commit index stay. */
    method DoFailed(trans: AEReplied)
      requires Valid() && 0 <= trans.server < PeerCount()
      modifies nextIndex
      ensures Valid()
      ensures nextIndex[..] == old(nextIndex[..])[trans.server := BacktrackedNextIndex(entries, trans.conflictPrevTerm, trans.conflictPrevIndex)]
      ensures matchIndex[..] == old(matchIndex[..]) && commitIndex == old(commitIndex)
    {
      var conflictPrevIndex := BackTrackLogTerm(entries, trans.conflictPrevTerm);
      var conflictReplyIndex := trans.conflictPrevIndex;
      if conflictReplyIndex < conflictPrevIndex {
        nextIndex[trans.server] := conflictReplyIndex + 1;
      } else {
        nextIndex[trans.server] := conflictPrevIndex + 1;
      }
    }

    /** Processes an AEReplied transition, which is legal only in the log
        machine's normal state; it never changes that state. */
    method Transfer(source: SMState, trans: AEReplied, currentTerm: int) returns (result: TransferResult, applied: bool)
      requires Valid() && 0 <= trans.server < PeerCount()
      modifies nextIndex, matchIndex, this`commitIndex
      ensures Valid()
      ensures source != LogNormalState ==>
        && result == Fatal && !applied
        && nextIndex[..] == old(nextIndex[..]) && matchIndex[..] == old(matchIndex[..]) && commitIndex == old(commitIndex)
      ensures source == LogNormalState ==> result == Transferred(NotTransferred)
      ensures source == LogNormalState && trans.success ==>
        && nextIndex[..] == old(nextIndex[..])[trans.server := old(nextIndex[trans.server]) + trans.count]
        && matchIndex[..] == old(matchIndex[..])[trans.server := old(nextIndex[trans.server]) + trans.count - 1]
        && commitIndex == CommitScan(entries, matchIndex[..], me, currentTerm, old(commitIndex), LastLogIndex())
        && (applied <==> commitIndex > old(commitIndex))
      ensures source == LogNormalState && !trans.success ==>
        && nextIndex[..] == old(nextIndex[..])[trans.server := BacktrackedNextIndex(entries, trans.conflictPrevTerm, trans.conflictPrevIndex)]
        && matchIndex[..] == old(matchIndex[..]) && commitIndex == old(commitIndex) && !applied
    {
      if source != LogNormalState {
        return Fatal, false;
      }
      if trans.success {
        applied := DoSuccess(trans, currentTerm);
      } else {
        DoFailed(trans);
        applied := false;
      }
      result := Transferred(NotTransferred);
    }
  }
}
