/** What calls are answered and what they change: of each call by its guards, of histories by the calls before. */
module Answers {
  import opened Prelude
  import opened Elections
  import opened Indexes

  // ----- What each call does, key by key -----

  function At<T>(m: map<Hash, T>, k: Hash): Option<T> {
    if k in m then Some(m[k]) else None
  }

  /** Where an election is stored after any call, and what as. */
  lemma ElectionAfter(cfg: Config, s: Store, call: Call, e: Hash)
    ensures At(Step(cfg, s, call).store.elections, e)
         == if Creates(cfg, call, e) then Some(Election(call.description, true))
            else if call == CloseElection(Root, e) && IsOpen(s, e) then
              Some(Election(s.elections[e].description, false))
            else At(s.elections, e)
  {
  }

  /** Where a candidate is stored after any call, and what as. */
  lemma CandidateAfter(cfg: Config, s: Store, call: Call, c: Hash)
    ensures At(Step(cfg, s, call).store.candidates, c)
         == if Registers(cfg, s, call, c) then Some(Candidate(call.candidateName, call.electionId))
            else At(s.candidates, c)
  {
  }

  /** The two lists of an election after any call: emptied by its creation, and grown by one entry at most. */
  lemma ElectionListsAfter(cfg: Config, s: Store, call: Call, e: Hash)
    ensures At(Step(cfg, s, call).store.electionCandidates, e)
         == if Creates(cfg, call, e) then Some([])
            else if Nominates(cfg, s, call, e) then
              Some(s.electionCandidates[e] + [Candidate(call.candidateName, e)])
            else At(s.electionCandidates, e)
    ensures At(Step(cfg, s, call).store.electionVotes, e)
         == if Creates(cfg, call, e) then Some([])
            else if ListedFor(s, call, e) != [] then
              Some(s.electionVotes[e] + [Vote(call.candidateId, e, call.origin.who)])
            else At(s.electionVotes, e)
  {
  }

  /** The list of a candidate after any call: emptied by its registration, and grown by one vote at most. */
  lemma CandidateVotesAfter(cfg: Config, s: Store, call: Call, c: Hash)
    ensures At(Step(cfg, s, call).store.candidateVotes, c)
         == if Registers(cfg, s, call, c) then Some([])
            else if RecordedFor(s, call, c) != [] then
              Some(s.candidateVotes[c] + [Vote(c, call.electionId, call.origin.who)])
            else At(s.candidateVotes, c)
  {
  }

  /** Which of the four answers an election gets, from any state: it depends on the caller and the length alone. */
  lemma ElectionAnswers(cfg: Config, s: Store, origin: Origin, description: Bytes)
    ensures var r := Step(cfg, s, CreateElection(origin, description)).result;
            var stored := ElectionStored(description, cfg.hashOfElection(Election(description, true)));
            var length := |description| % 0x1_0000_0000;
            var short, long := length <= cfg.electionMinBytes, length >= cfg.electionMaxBytes;
            && (r == Ok(stored) <==> origin == Root && !short && !long)
            && (r == Err(BadOrigin) <==> origin != Root)
            && (r == Err(ElectionNotEnoughBytes) <==> origin == Root && short)
            && (r == Err(ElectionTooManyBytes) <==> origin == Root && !short && long)
  {
  }

  // ----- What a vote is answered, from the history alone -----

  lemma HasVotedAppend(votes: seq<Vote>, added: seq<Vote>, who: AccountId)
    ensures HasVoted(votes + added, who) <==> HasVoted(votes, who) || HasVoted(added, who)
  {
    if i :| 0 <= i < |votes| && votes[i].author == who {
      assert (votes + added)[i].author == who;
    }
    if i :| 0 <= i < |added| && added[i].author == who {
      assert (votes + added)[|votes| + i].author == who;
    }
  }

  predicate CastsFor(call: Call, who: AccountId, e: Hash) {
    call.CreateVote? && call.origin == Signed(who) && call.electionId == e
  }

  /** Call i creates e, and no later one is a close of e by root. */
  ghost predicate OpenedAt(cfg: Config, calls: seq<Call>, e: Hash, i: int) {
    && 0 <= i < |calls| && Creates(cfg, calls[i], e)
    && forall j :: i < j < |calls| ==> calls[j] != CloseElection(Root, e)
  }

  /** Call i is a vote of the author in e that was answered Ok or CandidateNotFound, and no later one creates e. */
  ghost predicate VotedAt(cfg: Config, calls: seq<Call>, who: AccountId, e: Hash, i: int) {
    && 0 <= i < |calls| && CastsFor(calls[i], who, e)
    && UsesUpVote(Answer(cfg, Genesis, calls, i))
    && forall j :: i < j < |calls| ==> !Creates(cfg, calls[j], e)
  }

  ghost predicate OpenedBy(cfg: Config, calls: seq<Call>, e: Hash) {
    exists i :: OpenedAt(cfg, calls, e, i)
  }

  ghost predicate VotedBy(cfg: Config, calls: seq<Call>, who: AccountId, e: Hash) {
    exists i :: VotedAt(cfg, calls, who, e, i)
  }

  lemma OpenedBySnoc(cfg: Config, calls: seq<Call>, last: Call, e: Hash)
    ensures OpenedBy(cfg, calls + [last], e)
       <==> Creates(cfg, last, e) || (OpenedBy(cfg, calls, e) && last != CloseElection(Root, e))
  {
    var all, n := calls + [last], |calls|;
    assert forall i :: 0 <= i < n ==> all[i] == calls[i];
    forall i | 0 <= i < n
      ensures OpenedAt(cfg, all, e, i) <==> OpenedAt(cfg, calls, e, i) && last != CloseElection(Root, e)
    {
      assert all[n] == last;
      if OpenedAt(cfg, all, e, i) {
        assert forall j :: i < j < n ==> all[j] != CloseElection(Root, e);
      }
    }
    assert OpenedAt(cfg, all, e, n) <==> Creates(cfg, last, e);
  }

  lemma VotedBySnoc(cfg: Config, calls: seq<Call>, last: Call, who: AccountId, e: Hash)
    ensures VotedBy(cfg, calls + [last], who, e)
       <==> (VotedBy(cfg, calls, who, e) && !Creates(cfg, last, e))
            || (CastsFor(last, who, e) && UsesUpVote(Step(cfg, Run(cfg, Genesis, calls), last).result))
  {
    var all, n := calls + [last], |calls|;
    forall i | 0 <= i < n
      ensures VotedAt(cfg, all, who, e, i) <==> VotedAt(cfg, calls, who, e, i) && !Creates(cfg, last, e)
    {
      assert all[..i] == calls[..i] && all[i] == calls[i] && all[n] == last;
    }
    assert all[..n] == calls;
    assert VotedAt(cfg, all, who, e, n) <==> CastsFor(last, who, e) && UsesUpVote(Answer(cfg, Genesis, all, n));
  }

  lemma RegisteredDuringSnoc(cfg: Config, s: Store, calls: seq<Call>, last: Call, c: Hash)
    ensures RegisteredDuring(cfg, s, calls + [last], c)
       <==> RegisteredDuring(cfg, s, calls, c) || Registers(cfg, Run(cfg, s, calls), last, c)
  {
    var all, n := calls + [last], |calls|;
    forall i | 0 <= i < n
      ensures all[..i] == calls[..i] && all[i] == calls[i]
    {
    }
    assert all[..n] == calls && all[n] == last;
    if RegisteredDuring(cfg, s, calls, c) {
      var k :| 0 <= k < n && Registers(cfg, Run(cfg, s, calls[..k]), calls[k], c);
      assert Registers(cfg, Run(cfg, s, all[..k]), all[k], c);
    }
  }

  lemma OpenAfter(cfg: Config, s: Store, call: Call, e: Hash)
    ensures IsOpen(Step(cfg, s, call).store, e)
       <==> Creates(cfg, call, e) || (IsOpen(s, e) && call != CloseElection(Root, e))
  {
  }

  lemma RegisteredAfter(cfg: Config, s: Store, call: Call, c: Hash)
    ensures c in Step(cfg, s, call).store.candidateVotes <==> c in s.candidateVotes || Registers(cfg, s, call, c)
  {
  }

  lemma VotedAfter(cfg: Config, s: Store, call: Call, who: AccountId, e: Hash)
    ensures HasVoted(ListAt(Step(cfg, s, call).store.electionVotes, e), who)
       <==> (HasVoted(ListAt(s.electionVotes, e), who) && !Creates(cfg, call, e))
            || (CastsFor(call, who, e) && UsesUpVote(Step(cfg, s, call).result))
  {
    ElectionListAfter(cfg, s, call, e);
    HasVotedAppend(ListAt(s.electionVotes, e), ListedFor(s, call, e), who);
    if ListedFor(s, call, e) != [] {
      assert ListedFor(s, call, e)[0].author == call.origin.who;
    }
  }

  /** An election is open exactly if it was created and not closed since. */
  lemma {:induction false} OpenFromHistory(cfg: Config, calls: seq<Call>, e: Hash)
    ensures IsOpen(Run(cfg, Genesis, calls), e) <==> OpenedBy(cfg, calls, e)
  {
    if calls != [] {
      var init, last := calls[..|calls| - 1], calls[|calls| - 1];
      assert calls == init + [last];
      OpenFromHistory(cfg, init, e);
      OpenAfter(cfg, Run(cfg, Genesis, init), last, e);
      OpenedBySnoc(cfg, init, last, e);
    }
  }

  /** An author is in an election's list exactly if a vote was answered Ok or CandidateNotFound since its creation. */
  lemma {:induction false} VotedFromHistory(cfg: Config, calls: seq<Call>, who: AccountId, e: Hash)
    ensures HasVoted(ListAt(Run(cfg, Genesis, calls).electionVotes, e), who) <==> VotedBy(cfg, calls, who, e)
  {
    if calls != [] {
      var init, last := calls[..|calls| - 1], calls[|calls| - 1];
      assert calls == init + [last];
      VotedFromHistory(cfg, init, who, e);
      VotedAfter(cfg, Run(cfg, Genesis, init), last, who, e);
      VotedBySnoc(cfg, init, last, who, e);
    }
  }

  lemma {:induction false} RegisteredFromHistory(cfg: Config, calls: seq<Call>, c: Hash)
    ensures c in Run(cfg, Genesis, calls).candidateVotes <==> RegisteredDuring(cfg, Genesis, calls, c)
  {
    if calls != [] {
      var init, last := calls[..|calls| - 1], calls[|calls| - 1];
      assert calls == init + [last];
      RegisteredFromHistory(cfg, init, c);
      RegisteredAfter(cfg, Run(cfg, Genesis, init), last, c);
      RegisteredDuringSnoc(cfg, Genesis, init, last, c);
    }
  }

  /**
   The answer to a vote from the calls before it and their answers, for every history: Ok exactly if the caller signs,
   the election was created and not closed since, the author has had no vote there answered Ok or CandidateNotFound
   since, and some accepted call has registered the candidate.
   */
  lemma {:induction false} VoteAnswers(cfg: Config, calls: seq<Call>, origin: Origin, c: Hash, e: Hash)
    ensures var r := Step(cfg, Run(cfg, Genesis, calls), CreateVote(origin, c, e)).result;
            r == if !origin.Signed? then Err(BadOrigin)
                 else if !OpenedBy(cfg, calls, e) || VotedBy(cfg, calls, origin.who, e) then Err(ElectionNotFound)
                 else if !RegisteredDuring(cfg, Genesis, calls, c) then Err(CandidateNotFound)
                 else Ok(VoteStored(e, c))
  {
    ReachableIsIndexed(cfg, calls);
    if origin.Signed? {
      OpenFromHistory(cfg, calls, e);
      VotedFromHistory(cfg, calls, origin.who, e);
      RegisteredFromHistory(cfg, calls, c);
    }
  }

  /** The answer to a close, for every history: Ok exactly if root closes what was created and not closed since. */
  lemma {:induction false} CloseAnswers(cfg: Config, calls: seq<Call>, origin: Origin, e: Hash)
    ensures var r := Step(cfg, Run(cfg, Genesis, calls), CloseElection(origin, e)).result;
            && (r == Ok(ElectionUpdated(false, e)) <==> origin == Root && OpenedBy(cfg, calls, e))
            && (r == Err(BadOrigin) <==> origin != Root)
            && (r == Err(ElectionNotFound) <==> origin == Root && !OpenedBy(cfg, calls, e))
  {
    OpenFromHistory(cfg, calls, e);
  }

  /**
   The answer to a candidate, for every history: Ok exactly if root names it within the bounds for an election that
   some call created, open or not. The length is judged before the election.
   */
  lemma {:induction false} CandidateAnswers(cfg: Config, calls: seq<Call>, origin: Origin, name: Bytes, e: Hash)
    ensures var r := Step(cfg, Run(cfg, Genesis, calls), CreateCandidate(origin, name, e)).result;
            var stored := CandidateStored(name, cfg.hashOfCandidate(Candidate(name, e)));
            var length := |name| % 0x1_0000_0000;
            var short, long := length <= cfg.candidateMinBytes, length >= cfg.candidateMaxBytes;
            var known := exists k :: 0 <= k < |calls| && Creates(cfg, calls[k], e);
            && (r == Ok(stored) <==> origin == Root && !short && !long && known)
            && (r == Err(BadOrigin) <==> origin != Root)
            && (r == Err(CandidateNotEnoughBytes) <==> origin == Root && short)
            && (r == Err(CandidateTooManyBytes) <==> origin == Root && !short && long)
            && (r == Err(ElectionNotFound) <==> origin == Root && !short && !long && !known)
  {
    ReachableIsIndexed(cfg, calls);
    ElectionsAreTheCreated(cfg, calls, e);
  }

  /**
   A vote answered CandidateNotFound counts as the author's vote, like an accepted one: until e is created again, every
   later vote of the author in e is answered ElectionNotFound.
   */
  lemma VoteIsUsedUp(cfg: Config, calls: seq<Call>, j: nat, k: nat, who: AccountId, e: Hash)
    requires j < k < |calls| && CastsFor(calls[j], who, e) && CastsFor(calls[k], who, e)
    requires UsesUpVote(Answer(cfg, Genesis, calls, j))
    requires forall i :: j < i < k ==> !Creates(cfg, calls[i], e)
    ensures Answer(cfg, Genesis, calls, k) == Err(ElectionNotFound)
  {
    assert calls[..k][..j] == calls[..j];
    assert VotedAt(cfg, calls[..k], who, e, j);
    VoteAnswers(cfg, calls[..k], Signed(who), calls[k].candidateId, e);
  }

  /**
   Exactly which failing calls still change the storage: signed votes that the election takes, for a candidate that is
   not registered.
   */
  lemma FailedCallWritesIff(cfg: Config, s: Store, call: Call)
    requires Step(cfg, s, call).result.Err?
    ensures Step(cfg, s, call).store != s
       <==> call.CreateVote? && call.origin.Signed? && TakesVote(s, call.electionId, call.origin.who)
            && call.candidateId !in s.candidateVotes
  {
    if call.CreateVote? {
      ElectionListAfter(cfg, s, call, call.electionId);
    }
  }
}
