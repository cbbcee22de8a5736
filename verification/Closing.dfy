/** A closed election stays as it is. */
module Closing {
  import opened Prelude
  import opened Elections
  import opened Indexes
  import opened Agreement

  ghost predicate IsClosed(s: Store, e: Hash) {
    e in s.elections && !s.elections[e].isOpen
  }

  ghost predicate NeverCreates(cfg: Config, calls: seq<Call>, e: Hash) {
    forall k :: 0 <= k < |calls| ==> !Creates(cfg, calls[k], e)
  }

  lemma ClosedTakesNoVote(s: Store, call: Call, e: Hash)
    requires IsClosed(s, e)
    ensures ListedFor(s, call, e) == []
    ensures forall v :: v in Recorded(s, call) ==> v.electionId != e
  {
  }

  lemma ClosedStays(cfg: Config, s: Store, call: Call, e: Hash)
    requires IsClosed(s, e) && !Creates(cfg, call, e)
    ensures var s' := Step(cfg, s, call).store;
            && e in s'.elections && s'.elections[e] == s.elections[e]
            && ListAt(s'.electionVotes, e) == ListAt(s.electionVotes, e)
  {
    ClosedTakesNoVote(s, call, e);
    ElectionListAfter(cfg, s, call, e);
  }

  /** Only creating a closed election again opens it; that always does, and leaves it without votes. */
  lemma ReopenedIff(cfg: Config, s: Store, call: Call, e: Hash)
    requires IsClosed(s, e)
    ensures var s' := Step(cfg, s, call).store;
            && (IsClosed(s', e) <==> !Creates(cfg, call, e))
            && (Creates(cfg, call, e) ==> IsOpen(s', e) && ListAt(s'.electionVotes, e) == [])
  {
  }

  lemma OtherVotesDoNotShow(votes: seq<Vote>, added: seq<Vote>, e: Hash)
    requires |added| <= 1 && forall v :: v in added ==> v.electionId != e
    ensures VotesFor(votes + added, e) == VotesFor(votes, e)
  {
    if added == [] {
      assert votes + added == votes;
    } else {
      assert added[0] in added && added == [added[0]];
      FilterSnoc(NamesElection(e), votes, added[0]);
    }
  }

  lemma ClosedGainsNoRecord(cfg: Config, s: Store, call: Call, e: Hash, c: Hash)
    requires IsClosed(s, e)
    ensures var s' := Step(cfg, s, call).store;
            if Registers(cfg, s, call, c) then ListAt(s'.candidateVotes, c) == []
            else VotesFor(ListAt(s'.candidateVotes, c), e) == VotesFor(ListAt(s.candidateVotes, c), e)
  {
    ClosedTakesNoVote(s, call, e);
    CandidateListAfter(cfg, s, call, c);
    OtherVotesDoNotShow(ListAt(s.candidateVotes, c), RecordedFor(s, call, c), e);
  }

  /**
   From any state where e is closed, along any history that does not create e again: e stays closed, its list is
   unchanged, and a candidate's votes for e are the same or, if the candidate was registered again, none.
   */
  lemma {:induction false} ClosedIsFinal(cfg: Config, s: Store, calls: seq<Call>, e: Hash, c: Hash)
    requires IsClosed(s, e) && NeverCreates(cfg, calls, e)
    ensures var s' := Run(cfg, s, calls);
            && IsClosed(s', e) && s'.elections[e] == s.elections[e]
            && ListAt(s'.electionVotes, e) == ListAt(s.electionVotes, e)
            && (VotesFor(ListAt(s'.candidateVotes, c), e) == VotesFor(ListAt(s.candidateVotes, c), e)
                || (VotesFor(ListAt(s'.candidateVotes, c), e) == [] && RegisteredDuring(cfg, s, calls, c)))
  {
    if calls != [] {
      var init, last := calls[..|calls| - 1], calls[|calls| - 1];
      assert forall k :: 0 <= k < |init| ==> init[k] == calls[k];
      ClosedIsFinal(cfg, s, init, e, c);
      ClosedStays(cfg, Run(cfg, s, init), last, e);
      ClosedGainsNoRecord(cfg, Run(cfg, s, init), last, e, c);
      if RegisteredDuring(cfg, s, init, c) {
        var k :| 0 <= k < |init| && Registers(cfg, Run(cfg, s, init[..k]), init[k], c);
        assert init[..k] == calls[..k];
        assert Registers(cfg, Run(cfg, s, calls[..k]), calls[k], c);
      }
    }
  }

  /**
   Once close_election has answered Ok, nothing short of creating the election again opens it (ReopenedIff) or
   changes its list: at the end of the history it is closed, and its list is the one it had when it was closed.
   */
  lemma CloseTakesEffect(cfg: Config, s: Store, calls: seq<Call>, k: nat, e: Hash)
    requires k < |calls| && calls[k].CloseElection? && calls[k].electionId == e
    requires Answer(cfg, s, calls, k).Ok? && NeverCreates(cfg, calls[k + 1..], e)
    ensures IsClosed(Run(cfg, s, calls), e)
    ensures ListAt(Run(cfg, s, calls).electionVotes, e) == ListAt(Run(cfg, s, calls[..k]).electionVotes, e)
  {
    var before, after := Run(cfg, s, calls[..k]), Run(cfg, s, calls[..k + 1]);
    assert calls[..k + 1][..k] == calls[..k];
    assert after == Step(cfg, before, calls[k]).store;
    RunSplit(cfg, s, calls, k + 1);
    ClosedIsFinal(cfg, after, calls[k + 1..], e, e);
  }

  /** With a collision-free hash it is enough that no call repeats the description e was created with. */
  lemma {:induction false} ClosedUnlessRepeated(cfg: Config, before: seq<Call>, calls: seq<Call>, e: Hash)
    requires CollisionFree(cfg)
    requires var s := Run(cfg, Genesis, before);
             && IsClosed(s, e)
             && forall k :: 0 <= k < |calls| && calls[k].CreateElection? ==>
                  calls[k].description != s.elections[e].description
    ensures var s := Run(cfg, Genesis, before);
            var s' := Run(cfg, s, calls);
            IsClosed(s', e) && ListAt(s'.electionVotes, e) == ListAt(s.electionVotes, e)
  {
    var s := Run(cfg, Genesis, before);
    ReachableIsIndexed(cfg, before);
    assert forall k :: 0 <= k < |calls| && Creates(cfg, calls[k], e) ==>
        Election(calls[k].description, true) == Election(s.elections[e].description, true);
    ClosedIsFinal(cfg, s, calls, e, e);
  }
}
