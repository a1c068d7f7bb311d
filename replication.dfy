/** The leader-side specification of replication progress: the commit
    advancement rule of section 5.4.2 of the Raft paper as the log machine's
    commit scan applies it, and the fast-backtracking jump of nextIndex after a
    rejected AppendEntries. The log machine's methods are proved against these
    functions. */
module Replication {
  import opened RaftLog
  import opened RaftRpc

  // ----- Commit advancement -----

  /** Among the first k peers, the number other than `me` whose matchIndex is at
      least n, counting only when entry n has the current term (termMatches). */
  function AgreeCount(matchIndex: seq<int>, me: int, n: int, termMatches: bool, k: nat): (c: nat)
    requires k <= |matchIndex|
    ensures c <= k
    ensures 0 <= me < k ==> c < k
  {
    if k == 0 then 0
    else AgreeCount(matchIndex, me, n, termMatches, k - 1)
         + (if k - 1 != me && matchIndex[k - 1] >= n && termMatches then 1 else 0)
  }

  /** The peers other than `me`, among the first k, whose matchIndex is at least n. */
  ghost function AgreeSet(matchIndex: seq<int>, me: int, n: int, k: nat): set<int>
    requires k <= |matchIndex|
  {
    set i | 0 <= i < k && i != me && matchIndex[i] >= n
  }

  /** Entry n may be committed: this peer together with the agreeing peers is
      more than half of the cluster. */
  function Agrees(log: seq<LogEntry>, matchIndex: seq<int>, me: int, currentTerm: int, n: nat): (r: bool)
    requires ValidLog(log) && n < |log|
    ensures |matchIndex| <= 1 ==> r
    ensures r && |matchIndex| >= 2 ==> log[n].term == currentTerm
  {
    AgreeCountWrongTerm(matchIndex, me, n, log[n].term == currentTerm, |matchIndex|);
    AgreeCount(matchIndex, me, n, log[n].term == currentTerm, |matchIndex|) + 1 > |matchIndex| / 2
  }

  /** The commit index after scanning the indices base+1 .. hi in increasing
      order, each agreeing index replacing the previous value. */
  function CommitScan(log: seq<LogEntry>, matchIndex: seq<int>, me: int, currentTerm: int, base: nat, hi: int): (r: nat)
    requires ValidLog(log) && hi < |log|
    ensures base <= r
    ensures r == base || (r <= hi && Agrees(log, matchIndex, me, currentTerm, r))
    ensures forall n: nat :: base < n <= hi && r < n ==> !Agrees(log, matchIndex, me, currentTerm, n)
    decreases hi - base
  {
    if hi <= base then base
    else if Agrees(log, matchIndex, me, currentTerm, hi) then hi
    else CommitScan(log, matchIndex, me, currentTerm, base, hi - 1)
  }

  /** No peer agrees on an entry whose term is not the current term. */
  lemma {:induction false} AgreeCountWrongTerm(matchIndex: seq<int>, me: int, n: int, termMatches: bool, k: nat)
    requires k <= |matchIndex|
    ensures !termMatches ==> AgreeCount(matchIndex, me, n, termMatches, k) == 0
  {
    if k > 0 {
      AgreeCountWrongTerm(matchIndex, me, n, termMatches, k - 1);
    }
  }

  /** The count the commit scan computes is the number of other peers whose
      matchIndex reaches n. */
  lemma {:induction false} AgreeCountIsCardinality(matchIndex: seq<int>, me: int, n: int, k: nat)
    requires k <= |matchIndex|
    ensures AgreeCount(matchIndex, me, n, true, k) == |AgreeSet(matchIndex, me, n, k)|
  {
    if k == 0 {
      assert AgreeSet(matchIndex, me, n, 0) == {};
    } else {
      AgreeCountIsCardinality(matchIndex, me, n, k - 1);
      var before := AgreeSet(matchIndex, me, n, k - 1);
      if k - 1 != me && matchIndex[k - 1] >= n {
        assert AgreeSet(matchIndex, me, n, k) == before + {k - 1};
        assert k - 1 !in before;
      } else {
        assert AgreeSet(matchIndex, me, n, k) == before;
      }
    }
  }

  /** The rule of section 5.4.2: with at least two peers, the scan moves the
      commit index only to an entry of the current term that this peer and
      more than half the cluster minus one other peers have matched. */
  lemma CommitOnlyCurrentTermMajority(log: seq<LogEntry>, matchIndex: seq<int>, me: int, currentTerm: int, base: nat, hi: int)
    requires ValidLog(log) && hi < |log| && |matchIndex| >= 2
    ensures var r := CommitScan(log, matchIndex, me, currentTerm, base, hi);
      r != base ==>
        && log[r].term == currentTerm
        && 1 + |AgreeSet(matchIndex, me, r, |matchIndex|)| > |matchIndex| / 2
  {
    var r := CommitScan(log, matchIndex, me, currentTerm, base, hi);
    if r != base {
      AgreeCountWrongTerm(matchIndex, me, r, log[r].term == currentTerm, |matchIndex|);
      AgreeCountIsCardinality(matchIndex, me, r, |matchIndex|);
    }
  }

  /** With a single peer every index agrees whatever its term, so the scan
      commits the whole log, entries of earlier terms included. */
  lemma SinglePeerCommitsWholeLog(log: seq<LogEntry>, matchIndex: seq<int>, me: int, currentTerm: int, base: nat)
    requires ValidLog(log) && |matchIndex| == 1 && base < LastLogIndex(log)
    ensures CommitScan(log, matchIndex, me, currentTerm, base, LastLogIndex(log)) == LastLogIndex(log)
  {
  }

  /** Raising matchIndex entries never lowers the result of the scan. */
  lemma {:induction false} CommitScanMonotone(log: seq<LogEntry>, m1: seq<int>, m2: seq<int>, me: int, currentTerm: int, base: nat, hi: int)
    requires ValidLog(log) && hi < |log| && |m1| == |m2|
    requires forall i :: 0 <= i < |m1| ==> m1[i] <= m2[i]
    ensures CommitScan(log, m1, me, currentTerm, base, hi) <= CommitScan(log, m2, me, currentTerm, base, hi)
    decreases hi - base
  {
    if hi > base {
      AgreeCountMonotone(m1, m2, me, hi, log[hi].term == currentTerm, |m1|);
      CommitScanMonotone(log, m1, m2, me, currentTerm, base, hi - 1);
    }
  }

  lemma {:induction false} AgreeCountMonotone(m1: seq<int>, m2: seq<int>, me: int, n: int, termMatches: bool, k: nat)
    requires k <= |m1| == |m2|
    requires forall i :: 0 <= i < |m1| ==> m1[i] <= m2[i]
    ensures AgreeCount(m1, me, n, termMatches, k) <= AgreeCount(m2, me, n, termMatches, k)
  {
    if k > 0 {
      AgreeCountMonotone(m1, m2, me, n, termMatches, k - 1);
    }
  }

  // ----- Fast backtracking -----

  /** The nextIndex a rejected AppendEntries leaves for the follower: one past
      the smaller of the follower's reported conflict index and this log's last
      index of the reported conflict term. */
  function BacktrackedNextIndex(log: seq<LogEntry>, conflictPrevTerm: int, conflictPrevIndex: int): (r: int)
    requires ValidLog(log)
    ensures r - 1 <= conflictPrevIndex && r - 1 <= BackTrackLogTerm(log, conflictPrevTerm)
    ensures r - 1 == conflictPrevIndex || r - 1 == BackTrackLogTerm(log, conflictPrevTerm)
  {
    var own := BackTrackLogTerm(log, conflictPrevTerm);
    if conflictPrevIndex < own then conflictPrevIndex + 1 else own + 1
  }

  /** For a well-formed reply the new nextIndex lies within 1 .. lastLogIndex+1. */
  lemma BacktrackInRange(log: seq<LogEntry>, conflictPrevTerm: int, conflictPrevIndex: int)
    requires ValidLog(log) && conflictPrevIndex >= 0
    ensures 1 <= BacktrackedNextIndex(log, conflictPrevTerm, conflictPrevIndex) <= LastLogIndex(log) + 1
  {
  }

  /** When this log holds the conflict term at index j and nowhere later, and
      the follower's run of that term reaches j, the next probe uses entry j,
      whose term is the conflict term. */
  lemma BacktrackToOwnTerm(log: seq<LogEntry>, conflictPrevTerm: int, conflictPrevIndex: int, j: nat)
    requires ValidLog(log) && 0 < j < |log| && log[j].term == conflictPrevTerm
    requires forall k :: j < k < |log| ==> log[k].term != conflictPrevTerm
    requires conflictPrevIndex >= j
    ensures BacktrackedNextIndex(log, conflictPrevTerm, conflictPrevIndex) == j + 1
  {
  }

  /** When no real entry of this log has the conflict term, the leader falls
      back to the start of its log. */
  lemma BacktrackUnknownTerm(log: seq<LogEntry>, conflictPrevTerm: int, conflictPrevIndex: int)
    requires ValidLog(log) && conflictPrevIndex >= 0
    requires forall k :: 0 < k < |log| ==> log[k].term != conflictPrevTerm
    ensures BacktrackedNextIndex(log, conflictPrevTerm, conflictPrevIndex) == 1
  {
  }

  /** Follower and leader together: when a follower rejects the probe at
      prevLogIndex, the leader's backtracked nextIndex is never beyond the
      probed one (prevLogIndex + 1), and strictly before it when the follower's
      log is too short. This holds for the handler as written and for the
      corrected one. */
  lemma RejectionNeverAdvances(m: RoleState, followerLog: seq<LogEntry>, args: AppendEntriesArgs, leaderLog: seq<LogEntry>)
    requires ValidLog(followerLog) && ValidLog(leaderLog) && args.prevLogIndex >= 0
    ensures var rep := AppendEntries(m, followerLog, args).reply;
      !rep.success ==>
        && BacktrackedNextIndex(leaderLog, rep.conflictPrevTerm, rep.conflictPrevIndex) <= args.prevLogIndex + 1
        && (args.term >= m.currentTerm && args.prevLogIndex > LastLogIndex(followerLog) ==>
              BacktrackedNextIndex(leaderLog, rep.conflictPrevTerm, rep.conflictPrevIndex) <= args.prevLogIndex)
    ensures var rep := AppendEntriesChecked(m, followerLog, args).reply;
      !rep.success ==>
        && BacktrackedNextIndex(leaderLog, rep.conflictPrevTerm, rep.conflictPrevIndex) <= args.prevLogIndex + 1
        && (args.term >= m.currentTerm && args.prevLogIndex > LastLogIndex(followerLog) ==>
              BacktrackedNextIndex(leaderLog, rep.conflictPrevTerm, rep.conflictPrevIndex) <= args.prevLogIndex)
  {
  }

  /** The jump does not respect what is already matched: a leader whose entries
      1..3 all have term 1 and whose matchIndex for a follower is 3, handed a
      stale rejection reporting term 1 at index 1, moves nextIndex to 2, below
      matchIndex + 1. */
  lemma BacktrackBelowMatchIndex()
    ensures var next := BacktrackedNextIndex([Sentinel, LogEntry(1, "a"), LogEntry(1, "b"), LogEntry(1, "c")], 1, 1);
      next == 2 && !(3 <= next - 1)
  {
  }

  // ----- Worked examples -----

  /** Three peers, leader 0 at term 5 with entries of terms 1 and 5 and
      matchIndex 2 and 1 at its followers: entry 2 is of the current term and
      matched by the leader and peer 1, so the commit index reaches 2. */
  lemma ThreePeerCommit()
    ensures CommitScan([Sentinel, LogEntry(1, "a"), LogEntry(5, "b")], [0, 2, 1], 0, 5, 0, 2) == 2
  {
    assert Agrees([Sentinel, LogEntry(1, "a"), LogEntry(5, "b")], [0, 2, 1], 0, 5, 2);
  }

  /** A follower with entries of terms 1, 2, 2 rejects a probe at index 3 with
      term 3, reporting term 2 and the first index of its term-2 run. */
  lemma FollowerReportsRunStart()
    ensures var h := AppendEntries(RoleState(3, NoVote, FollowerState),
                                   [Sentinel, LogEntry(1, "a"), LogEntry(2, "b"), LogEntry(2, "c")],
                                   AppendEntriesArgs(3, 1, 3, 3, [], 0));
      !h.reply.success && h.reply.conflictPrevTerm == 2 && h.reply.conflictPrevIndex == 2
  {
  }
}
