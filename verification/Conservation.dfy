/** No vote is lost or invented: the sizes of the two vote indexes follow from the answers the calls gave. */
module Conservation {
  import opened Prelude
  import opened Elections
  import opened Indexes

  /** The length of all lists together. */
  ghost function Total(m: map<Hash, seq<Vote>>): nat {
    if m == map[] then 0
    else
      var k :| k in m;
      |m[k]| + Total(m - {k})
  }

  lemma {:induction false} TotalTakes(m: map<Hash, seq<Vote>>, k: Hash)
    requires k in m
    ensures Total(m) == |m[k]| + Total(m - {k})
  {
    var j :| j in m && Total(m) == |m[j]| + Total(m - {j});
    if j != k {
      TotalTakes(m - {j}, k);
      TotalTakes(m - {k}, j);
      assert m - {j} - {k} == m - {k} - {j};
    }
  }

  /** Replacing one list changes the total by the difference of the lengths. */
  lemma TotalUpdate(m: map<Hash, seq<Vote>>, k: Hash, votes: seq<Vote>)
    ensures Total(m[k := votes]) + |ListAt(m, k)| == Total(m) + |votes|
  {
    TotalTakes(m[k := votes], k);
    assert m[k := votes] - {k} == m - {k};
    if k in m {
      TotalTakes(m, k);
    } else {
      assert m - {k} == m;
    }
  }

  /** What a call throws away by creating an election id that is already there. */
  ghost function ElectionLoss(cfg: Config, s: Store, call: Call): nat {
    if call.CreateElection? && Creates(cfg, call, ElectionId(cfg, call.description)) then
      |ListAt(s.electionVotes, ElectionId(cfg, call.description))|
    else 0
  }

  /** What a call throws away by registering a candidate id that is already there. */
  ghost function CandidateLoss(cfg: Config, s: Store, call: Call): nat {
    if call.CreateCandidate? then
      var c := CandidateId(cfg, call.candidateName, call.electionId);
      if Registers(cfg, s, call, c) then |ListAt(s.candidateVotes, c)| else 0
    else 0
  }

  lemma VoteConserves(s: Store, origin: Origin, c: Hash, e: Hash)
    ensures var s' := CreateVoteSpec(s, origin, c, e).store;
            && Total(s'.electionVotes) == Total(s.electionVotes) + |Listed(s, CreateVote(origin, c, e))|
            && Total(s'.candidateVotes) == Total(s.candidateVotes) + |Recorded(s, CreateVote(origin, c, e))|
  {
    var Outcome(s', r) := CreateVoteSpec(s, origin, c, e);
    if UsesUpVote(r) {
      var v := [Vote(c, e, origin.who)];
      assert s'.electionVotes == s.electionVotes[e := ListAt(s.electionVotes, e) + v];
      TotalUpdate(s.electionVotes, e, ListAt(s.electionVotes, e) + v);
      if r.Ok? {
        assert s'.candidateVotes == s.candidateVotes[c := ListAt(s.candidateVotes, c) + v];
        TotalUpdate(s.candidateVotes, c, ListAt(s.candidateVotes, c) + v);
      } else {
        assert s'.candidateVotes == s.candidateVotes;
      }
    }
  }

  lemma ElectionConserves(cfg: Config, s: Store, origin: Origin, description: Bytes)
    ensures var s' := CreateElectionSpec(cfg, s, origin, description).store;
            && Total(s'.electionVotes) + ElectionLoss(cfg, s, CreateElection(origin, description))
               == Total(s.electionVotes)
            && s'.candidateVotes == s.candidateVotes
  {
    TotalUpdate(s.electionVotes, ElectionId(cfg, description), []);
  }

  lemma CandidateConserves(cfg: Config, s: Store, origin: Origin, name: Bytes, e: Hash)
    ensures var s' := CreateCandidateSpec(cfg, s, origin, name, e).store;
            && Total(s'.candidateVotes) + CandidateLoss(cfg, s, CreateCandidate(origin, name, e))
               == Total(s.candidateVotes)
            && s'.electionVotes == s.electionVotes
  {
    TotalUpdate(s.candidateVotes, CandidateId(cfg, name, e), []);
  }

  lemma StepConserves(cfg: Config, s: Store, call: Call)
    ensures var s' := Step(cfg, s, call).store;
            && Total(s'.electionVotes) + ElectionLoss(cfg, s, call) == Total(s.electionVotes) + |Listed(s, call)|
            && Total(s'.candidateVotes) + CandidateLoss(cfg, s, call) == Total(s.candidateVotes) + |Recorded(s, call)|
  {
    match call
    case CreateElection(origin, description) => ElectionConserves(cfg, s, origin, description);
    case CloseElection(_, _) =>
    case CreateCandidate(origin, name, e) => CandidateConserves(cfg, s, origin, name, e);
    case CreateVote(origin, c, e) => VoteConserves(s, origin, c, e);
  }

  // ----- Whole histories -----

  /** How many create_vote calls of the history answered Ok. */
  ghost function VotesAccepted(cfg: Config, s: Store, calls: seq<Call>): nat {
    if calls == [] then 0
    else
      var k := |calls| - 1;
      VotesAccepted(cfg, s, calls[..k]) + if calls[k].CreateVote? && Answer(cfg, s, calls, k).Ok? then 1 else 0
  }

  /** How many calls of the history answered CandidateNotFound. */
  ghost function CandidatesNotFound(cfg: Config, s: Store, calls: seq<Call>): nat {
    if calls == [] then 0
    else
      var k := |calls| - 1;
      CandidatesNotFound(cfg, s, calls[..k]) + if Answer(cfg, s, calls, k) == Err(CandidateNotFound) then 1 else 0
  }

  ghost function ElectionLosses(cfg: Config, s: Store, calls: seq<Call>): nat {
    if calls == [] then 0
    else
      var init := calls[..|calls| - 1];
      ElectionLosses(cfg, s, init) + ElectionLoss(cfg, Run(cfg, s, init), calls[|calls| - 1])
  }

  ghost function CandidateLosses(cfg: Config, s: Store, calls: seq<Call>): nat {
    if calls == [] then 0
    else
      var init := calls[..|calls| - 1];
      CandidateLosses(cfg, s, init) + CandidateLoss(cfg, Run(cfg, s, init), calls[|calls| - 1])
  }

  /** The books balance over every history from every state, with nothing assumed about ids or failures. */
  lemma {:induction false} VotesAreConserved(cfg: Config, s: Store, calls: seq<Call>)
    ensures var s' := Run(cfg, s, calls);
            && Total(s'.electionVotes) + ElectionLosses(cfg, s, calls)
               == Total(s.electionVotes) + VotesAccepted(cfg, s, calls) + CandidatesNotFound(cfg, s, calls)
            && Total(s'.candidateVotes) + CandidateLosses(cfg, s, calls)
               == Total(s.candidateVotes) + VotesAccepted(cfg, s, calls)
  {
    if calls != [] {
      var init, last := calls[..|calls| - 1], calls[|calls| - 1];
      VotesAreConserved(cfg, s, init);
      var before := Run(cfg, s, init);
      StepConserves(cfg, before, last);
      var r := Answer(cfg, s, calls, |calls| - 1);
      assert r == Step(cfg, before, last).result;
      assert |Recorded(before, last)| == if last.CreateVote? && r.Ok? then 1 else 0;
      assert |Listed(before, last)| == |Recorded(before, last)| + if r == Err(CandidateNotFound) then 1 else 0;
    }
  }

  /** The call creates no election or candidate id that is in use. */
  ghost predicate UsesFreshIds(cfg: Config, s: Store, call: Call) {
    && (forall e :: Creates(cfg, call, e) ==> e !in s.elections)
    && (forall c :: Registers(cfg, s, call, c) ==> c !in s.candidates)
  }

  ghost predicate AllIdsFresh(cfg: Config, calls: seq<Call>) {
    forall k :: 0 <= k < |calls| ==> UsesFreshIds(cfg, Run(cfg, Genesis, calls[..k]), calls[k])
  }

  lemma {:induction false} FreshLosesNothing(cfg: Config, calls: seq<Call>)
    requires AllIdsFresh(cfg, calls)
    ensures ElectionLosses(cfg, Genesis, calls) == 0 && CandidateLosses(cfg, Genesis, calls) == 0
  {
    if calls != [] {
      var init, last := calls[..|calls| - 1], calls[|calls| - 1];
      var s := Run(cfg, Genesis, init);
      forall k | 0 <= k < |init|
        ensures UsesFreshIds(cfg, Run(cfg, Genesis, init[..k]), init[k])
      {
        assert init[..k] == calls[..k];
        assert UsesFreshIds(cfg, Run(cfg, Genesis, calls[..k]), calls[k]);
      }
      FreshLosesNothing(cfg, init);
      ReachableIsIndexed(cfg, init);
      assert UsesFreshIds(cfg, s, last);
      if last.CreateElection? {
        assert Creates(cfg, last, ElectionId(cfg, last.description))
            ==> ElectionId(cfg, last.description) !in s.elections;
      }
      if last.CreateCandidate? {
        var c := CandidateId(cfg, last.candidateName, last.electionId);
        assert Registers(cfg, s, last, c) ==> c !in s.candidates;
      }
    }
  }

  /**
   In every history with fresh ids, the candidate lists hold exactly the accepted votes, and the election lists hold
   those and one more for every CandidateNotFound.
   */
  lemma {:induction false} FreshHistoriesConserve(cfg: Config, calls: seq<Call>)
    requires AllIdsFresh(cfg, calls)
    ensures var s := Run(cfg, Genesis, calls);
            && Total(s.candidateVotes) == VotesAccepted(cfg, Genesis, calls)
            && Total(s.electionVotes) == Total(s.candidateVotes) + CandidatesNotFound(cfg, Genesis, calls)
  {
    VotesAreConserved(cfg, Genesis, calls);
    FreshLosesNothing(cfg, calls);
  }
}
