# Raft peer: log replication and vote bookkeeping

This project models the consensus core of one Raft peer (a Go implementation
following Figure 2 and sections 5.3–5.4 of Ongaro & Ousterhout, "In Search of
an Understandable Consensus Algorithm") and proves properties of the model.

- `raft_log.dfy`, module `RaftLog`: log entries, the log with its sentinel at
  index 0 (term 0), the state-machine states, and the log queries the handlers
  call: the up-to-date test of section 5.4.1, the first index of a term run
  (`ConflictPrevIndex`) and the last index of a term (`BackTrackLogTerm`).
- `rpc.dfy`, module `RaftRpc`: the `RequestVote` and `AppendEntries` handlers
  as functions from a role snapshot, the log and the arguments to the reply
  and the events issued (a larger-term event for the role machine, a merge
  event for the log machine), and the `GetState` snapshot.
- `replication.dfy`, module `Replication`: the leader-side specification — the
  commit scan of section 5.4.2 and the fast-backtracking jump of `nextIndex` —
  with the lemmas about it.
- `log_machine.dfy`, module `LogMachine`: the class `LogStateMachine` whose
  methods update the log buffer, `commitIndex` and the `nextIndex`/`matchIndex`
  arrays in place: the `AEReplied` transition (`Transfer`, `DoSuccess`,
  `DoFailed`), `TryCommit` with its nested loops, and `Start`.

The modelled source files are src/raft/raft.go (the RPC handlers, `GetState`,
`Start`) and src/raft/AEReplied.go (the leader's handling of AppendEntries
replies).

The role machine's `currentTerm`, `votedFor` and role are read by the handlers
under a read lock; the model passes them in as a `RoleState` value (and
`TryCommit`, `DoSuccess`, `Transfer` take `currentTerm` as a parameter).

Modelling choices for helpers whose bodies are not in src/raft/raft.go or src/raft/AEReplied.go:
`lastLogIndex` is the last index of the sequence; `getEntry(i)` is `log[i]`;
`isUpToDate` is the section 5.4.1 comparison; `conflictPrevIndex(i)` is the
first index of the run of equal terms containing `i`; `backTrackLogTerm(t)` is
the last index whose term is `t`, and 0 (the sentinel, "no entry") when no
real entry has term `t`; `appendLog` appends at the end; `tryApply` is
recorded only as the `applied` result of `TryCommit`.

`doFailed` takes the minimum of the follower's reported conflict index and
the leader's own last index of the conflict term even when the leader holds
that term; the usual optimisation jumps to one past the leader's last entry of
that term. With the sentinel fallback of `backTrackLogTerm`, a leader holding
no entry of the reported term resets nextIndex to 1. `AppendEntries` answers
Success for a higher term even when the consistency check fails (see
Findings).

## Model

| member | source | states |
|---|---|---|
| `RaftLog.ConflictPrevIndex` | src/raft/raft.go:320 | the result is the first index of the run of equal terms ending at `i`: every entry from it to `i` has `i`'s term and the entry before it (if any) does not |
| `RaftLog.BackTrackLogTerm` | src/raft/AEReplied.go:49 | the result is within the log, has term `t` unless it is the sentinel 0, and no later entry has term `t` |
| `RaftLog.IsUpToDate` | src/raft/raft.go:212 | a candidate whose last term is lower is never up to date, one whose last term is higher always is, and at an equal last term it is up to date iff its last index is at least the voter's |
| `RaftRpc.GetState` | src/raft/raft.go:92-104 | returns the current term and leader exactly when the role is `SendAEState` |
| `RaftRpc.RequestVote` | src/raft/raft.go:189-223 | replies with the term read on entry; never grants below the current term; at an equal term grants iff votedFor is none or the candidate and the candidate is up to date; at a higher term grants iff up to date; issues only `LargerTerm(args.term, candidate)` events, one for the higher term and one per grant |
| `RaftRpc.OneVotePerTerm` | src/raft/raft.go:206-210 | once a vote is recorded in the current term, two grants at that term go to the same candidate, the one voted for |
| `RaftRpc.HigherTermGrantsBoth` | src/raft/raft.go:198-222 | from one snapshot with no vote at term 5, two candidates asking at term 6 are both granted, since the higher-term path does not consult votedFor |
| `RaftRpc.OwnLogIsUpToDate` | src/raft/raft.go:212-222 | a candidate presenting the voter's own last index and term, at a term the voter accepts, is granted |
| `RaftRpc.Consistent` | src/raft/raft.go:312-318 | the check passes only when prevLogIndex lies within the log and its entry has term prevLogTerm; a probe at the sentinel index 0 passes iff prevLogTerm is 0 |
| `RaftRpc.AppendEntries` | src/raft/raft.go:284-327 | below the current term: failure, no event; log too short: conflict index is the last index and conflict term its term, no merge; term mismatch: conflict index is the start of the mismatching run and conflict term that run's term, no merge; the merge event `(prevLogIndex, entries, leaderCommit)` is issued iff the term is not lower and the check passes, and then Success; Success holds iff the term is higher or the check passes at an equal term; the only other event is one `LargerTerm(term, leaderId)`, issued exactly when the term is higher |
| `RaftRpc.AppendEntriesChecked` | src/raft/raft.go:299-326 | corrected handler: Success iff a merge event is issued iff the term is not lower and the check passes; everything else as the handler as written |
| `RaftRpc.SuccessWithoutMerge` | src/raft/raft.go:299-323 | a higher-term request whose probe fails the check gets Success with no merge event issued |
| `RaftRpc.GrantForHigherLastTerm` | src/raft/raft.go:206-222 | a voter with no vote at an equal term grants a candidate whose last term is higher, with one larger-term event |
| `Replication.AgreeCount` | src/raft/AEReplied.go:89-97 | the inner loop's count over the first k peers is at most k, and below k when this peer is among them, since it never counts itself |
| `Replication.Agrees` | src/raft/AEReplied.go:98 | the majority test `agreeCount+1 > peerCount/2`: with at most one peer it always holds; with two or more it holds only for an entry of the current term |
| `Replication.AgreeCountWrongTerm` | src/raft/AEReplied.go:94-96 | when entry N's term is not the current term no peer is counted |
| `Replication.AgreeCountIsCardinality` | src/raft/AEReplied.go:89-97 | the count the scan computes equals the number of peers other than this one whose matchIndex is at least N |
| `Replication.AgreeCountMonotone` | src/raft/AEReplied.go:89-97 | raising matchIndex entries never lowers the count |
| `Replication.CommitScan` | src/raft/AEReplied.go:86-105 | the scan never lowers the commit index; a new commit index lies within the scanned range and agrees; every index above it in the range does not agree |
| `Replication.CommitOnlyCurrentTermMajority` | src/raft/AEReplied.go:88-100 | with at least two peers the commit index moves only to an entry of the current term that 1 + (other peers with matchIndex >= N) exceeds peerCount/2 for |
| `Replication.SinglePeerCommitsWholeLog` | src/raft/AEReplied.go:94-98 | with one peer the scan commits up to the last index whatever the entries' terms |
| `Replication.CommitScanMonotone` | src/raft/AEReplied.go:38-40 | raising matchIndex entries before the scan never lowers the resulting commit index |
| `Replication.ThreePeerCommit` | src/raft/AEReplied.go:88-100 | three peers at term 5, matchIndex 2 at one follower: the current-term entry 2 is committed |
| `Replication.BacktrackedNextIndex` | src/raft/AEReplied.go:49-55 | the new nextIndex minus one is the smaller of the reported conflict index and the leader's last index of the conflict term |
| `Replication.BacktrackInRange` | src/raft/AEReplied.go:49-55 | for a non-negative reported index the new nextIndex lies in 1 .. lastLogIndex+1 |
| `Replication.BacktrackToOwnTerm` | src/raft/AEReplied.go:49-55 | when the leader's last entry of the conflict term is at j and the reported index reaches j, nextIndex becomes j+1 |
| `Replication.BacktrackUnknownTerm` | src/raft/AEReplied.go:49-55 | when no real leader entry has the conflict term, nextIndex becomes 1 |
| `Replication.RejectionNeverAdvances` | src/raft/AEReplied.go:43-55 | after a follower rejects a probe at prevLogIndex, with either the handler as written (`AppendEntries`) or the corrected one (`AppendEntriesChecked`), the backtracked nextIndex is at most prevLogIndex+1, and at most prevLogIndex when the follower's log was too short |
| `Replication.BacktrackBelowMatchIndex` | src/raft/AEReplied.go:49-55 | a leader with entries of term 1 at 1..3 and matchIndex 3, given a rejection reporting term 1 at index 1, sets nextIndex to 2, below matchIndex+1 |
| `Replication.FollowerReportsRunStart` | src/raft/raft.go:318-322 | a follower with terms 1, 2, 2 rejecting a probe at index 3 reports term 2 and index 2 |
| `LogMachine.LogStateMachine.constructor` | src/raft/raft.go:448 | a new log machine holds only the sentinel, commit index 0, every nextIndex 1 and matchIndex 0 |
| `LogMachine.LogStateMachine.AppendLog` | src/raft/raft.go:365-369 | the log grows by exactly the given entry at its end |
| `LogMachine.LogStateMachine.Start` | src/raft/raft.go:343-375 | returns old lastLogIndex+1 and the snapshot's term and leadership; a leader's log grows by one entry of the current term at that index with earlier entries unchanged; otherwise the log is unchanged |
| `LogMachine.LogStateMachine.CountAgreeing` | src/raft/AEReplied.go:89-97 | returns the count of peers other than this one with matchIndex >= N, zero unless entry N has the current term |
| `LogMachine.LogStateMachine.TryCommit` | src/raft/AEReplied.go:77-111 | the new commit index is the commit scan over the old commit index+1 .. lastLogIndex; a no-op when commitIndex+1 > lastLogIndex; never decreases and stays at most lastLogIndex (kept by every method as part of the machine invariant); applies iff the commit index increased |
| `LogMachine.LogStateMachine.DoSuccess` | src/raft/AEReplied.go:33-41 | nextIndex[server] grows by exactly count, matchIndex[server] becomes the new nextIndex-1, no other slot changes, then the commit scan runs |
| `LogMachine.LogStateMachine.DoFailed` | src/raft/AEReplied.go:43-60 | nextIndex[server] becomes the backtracked index, no other slot changes, matchIndex and commit index stay |
| `LogMachine.LogStateMachine.Transfer` | src/raft/AEReplied.go:62-75 | outside the normal state it stops fatally with nothing changed; otherwise returns notTransferred and has exactly the effect of DoSuccess when the reply succeeded and of DoFailed otherwise |

## Findings

| source | as written | input that shows it | evidently intended | confidence | as-written member | corrected member |
|---|---|---|---|---|---|---|
| src/raft/raft.go:299-323 | `reply.Success = true` is set for a term above currentTerm and the consistency-check failures return without clearing it | follower at term 1 with only the sentinel; request term 2, prevLogIndex 5: Success with no merge event | Success only when the entry at prevLogIndex matches and the entries are merged; otherwise the leader's `doSuccess` raises matchIndex for entries the follower does not hold | high (not executed) | `RaftRpc.SuccessWithoutMerge` | `RaftRpc.AppendEntriesChecked` |

## Left out

- Locks (`rwmu`, `mu`), the event-queue loops and `issueTransfer` scheduling: concurrency; an issued event is returned as a value.
- The role state machine's own transitions (larger-term, election timeout, majority elected): they are not in src/raft/raft.go or src/raft/AEReplied.go; the handlers see its state as a snapshot.
- Merging remote entries (`makeNewAE` processing) and `tryApply`'s delivery of `ApplyMsg` on the channel: not in src/raft/raft.go or src/raft/AEReplied.go, channel I/O; `tryApply` appears only as the `applied` result of `TryCommit`.
- Timers and randomised waits (`setElectionWait`, `makeTimer`, the seeding loop and startup sleep in `Make`): wall clock and randomness.
- `sendRequestVote`, `sendAppendEntries` and the transport's `Call`: network I/O.
- `persist`, `readPersist`, `CondInstallSnapshot`, `Snapshot`, `ticker`: empty stubs.
- `Kill`/`killed` (atomic flag) and `print`/`printFlag` (debug output).
- `RaftRpc.AppendEntries`: requires a non-negative prevLogIndex unless the term is lower, because the handler reads the entry at that index and a negative index is a fatal programming error, not a handled case.
- `LogMachine.LogStateMachine.DoSuccess`: requires the server index to be a valid peer, as the leader's own reply path always supplies.
- `LogMachine.LogStateMachine.DoFailed`: requires the server index to be a valid peer, as `DoSuccess` does. It also does not keep matchIndex[p] <= nextIndex[p]-1: a stale rejection can move nextIndex below an already matched index (`Replication.BacktrackBelowMatchIndex`), so that relation is not part of the machine invariant.
- `LogMachine.LogStateMachine.Transfer`: requires the server index to be a valid peer, as `DoSuccess` and `DoFailed` do.
- `RaftRpc.OneVotePerTerm`: covers only requests at the voter's current term. On the higher-term path the vote is recorded only when the issued larger-term event is processed, and that ordering is not modelled, so two candidates at the same new term can both be granted (`RaftRpc.HigherTermGrantsBoth`).
- `RaftLog.BackTrackLogTerm`: its body is not in src/raft/raft.go or src/raft/AEReplied.go; returning the sentinel index 0 when no real entry has the term is a modelling choice, and `Replication.BacktrackUnknownTerm` holds only under that choice.
- Integer widths: Go `int` is 64-bit; terms, indices and counts are unbounded here, which is faithful while they stay far from 2^63.
- `lastApplied` is not modelled, since only `tryApply` and debug output use it.
