/** What every history keeps: the five maps describe the same elections, candidates and voters. */
module Indexes {
  import opened Prelude
  import opened Elections

  predicate DescriptionFits(cfg: Config, description: Bytes) {
    cfg.electionMinBytes < LenAsU32(description) < cfg.electionMaxBytes
  }

  predicate NameFits(cfg: Config, name: Bytes) {
    cfg.candidateMinBytes < LenAsU32(name) < cfg.candidateMaxBytes
  }

  /** A call of root with a description within the bounds, whose election has id e. */
  predicate Creates(cfg: Config, call: Call, e: Hash) {
    && call.CreateElection? && call.origin == Root
    && DescriptionFits(cfg, call.description)
    && ElectionId(cfg, call.description) == e
  }

  /** No two accepted calls of the history create the election id e. */
  ghost predicate CreatedAtMostOnce(cfg: Config, calls: seq<Call>, e: Hash) {
    forall i, j :: 0 <= i < j < |calls| ==> !(Creates(cfg, calls[i], e) && Creates(cfg, calls[j], e))
  }

  ghost predicate CollisionFree(cfg: Config) {
    && (forall a, b :: cfg.hashOfElection(a) == cfg.hashOfElection(b) ==> a == b)
    && (forall a, b :: cfg.hashOfCandidate(a) == cfg.hashOfCandidate(b) ==> a == b)
  }

  // ----- What one call does to one list of votes -----

  function ListAt(m: map<Hash, seq<Vote>>, k: Hash): seq<Vote> {
    if k in m then m[k] else []
  }

  /** A call of root with a name within the bounds, for e, which has a list of candidates. */
  predicate Nominates(cfg: Config, s: Store, call: Call, e: Hash) {
    && call.CreateCandidate? && call.origin == Root
    && NameFits(cfg, call.candidateName) && call.electionId == e && e in s.electionCandidates
  }

  /** Such a call whose candidate has id c. */
  predicate Registers(cfg: Config, s: Store, call: Call, c: Hash) {
    && call.CreateCandidate? && Nominates(cfg, s, call, call.electionId)
    && CandidateId(cfg, call.candidateName, call.electionId) == c
  }

  /** Some call of the history registers candidate id c. */
  ghost predicate RegisteredDuring(cfg: Config, s: Store, calls: seq<Call>, c: Hash) {
    exists k :: 0 <= k < |calls| && Registers(cfg, Run(cfg, s, calls[..k]), calls[k], c)
  }

  /** The answers to votes that are then in the list of their election. */
  predicate UsesUpVote(r: DispatchResult) {
    r.Ok? || r == Err(CandidateNotFound)
  }

  /** The votes the call adds to election lists: that of a signed author whom the election takes. */
  ghost function Listed(s: Store, call: Call): seq<Vote> {
    if call.CreateVote? && call.origin.Signed? && TakesVote(s, call.electionId, call.origin.who) then
      [Vote(call.candidateId, call.electionId, call.origin.who)]
    else []
  }

  /** The votes the call adds to candidate lists: only those for a registered candidate. */
  ghost function Recorded(s: Store, call: Call): seq<Vote> {
    if call.CreateVote? && call.candidateId in s.candidateVotes then Listed(s, call) else []
  }

  ghost function ListedFor(s: Store, call: Call, e: Hash): seq<Vote> {
    if call.CreateVote? && call.electionId == e then Listed(s, call) else []
  }

  ghost function RecordedFor(s: Store, call: Call, c: Hash): seq<Vote> {
    if call.CreateVote? && call.candidateId == c then Recorded(s, call) else []
  }

  /** A vote is recorded only if it is listed, and misses being recorded only if its candidate is unregistered. */
  lemma RecordedOrUnregistered(s: Store, call: Call)
    requires Listed(s, call) != []
    ensures call.CreateVote? && Listed(s, call) == [Vote(call.candidateId, call.electionId, call.origin.who)]
    ensures Recorded(s, call) == if call.candidateId in s.candidateVotes then Listed(s, call) else []
  {
  }

  lemma ElectionListAfter(cfg: Config, s: Store, call: Call, e: Hash)
    ensures ListAt(Step(cfg, s, call).store.electionVotes, e)
         == if Creates(cfg, call, e) then [] else ListAt(s.electionVotes, e) + ListedFor(s, call, e)
  {
  }

  lemma CandidateListAfter(cfg: Config, s: Store, call: Call, c: Hash)
    ensures ListAt(Step(cfg, s, call).store.candidateVotes, c)
         == if Registers(cfg, s, call, c) then [] else ListAt(s.candidateVotes, c) + RecordedFor(s, call, c)
  {
  }

  ghost predicate ListsCandidates(cfg: Config, s: Store, e: Hash)
    requires e in s.electionCandidates
  {
    forall i :: 0 <= i < |s.electionCandidates[e]| ==>
      var c := s.electionCandidates[e][i];
      c.electionId == e && cfg.hashOfCandidate(c) in s.candidates
  }

  ghost predicate SameKeys(s: Store) {
    && s.elections.Keys == s.electionCandidates.Keys == s.electionVotes.Keys
    && s.candidates.Keys == s.candidateVotes.Keys
  }

  /** Every election sits at the hash it had when it was created, open; closing it does not move it. */
  ghost predicate ElectionsAddressed(cfg: Config, s: Store) {
    forall e :: e in s.elections ==> e == cfg.hashOfElection(Election(s.elections[e].description, true))
  }

  ghost predicate CandidatesAddressed(cfg: Config, s: Store) {
    forall c :: c in s.candidates ==>
      c == cfg.hashOfCandidate(s.candidates[c]) && s.candidates[c].electionId in s.elections
  }

  /** The content-addressed shape of the storage. */
  ghost predicate Indexed(cfg: Config, s: Store) {
    && SameKeys(s)
    && ElectionsAddressed(cfg, s)
    && CandidatesAddressed(cfg, s)
    && (forall e :: e in s.electionCandidates ==> ListsCandidates(cfg, s, e))
  }

  lemma IndexedCreateElection(cfg: Config, s: Store, origin: Origin, description: Bytes)
    requires Indexed(cfg, s)
    ensures Indexed(cfg, CreateElectionSpec(cfg, s, origin, description).store)
  {
    var s' := CreateElectionSpec(cfg, s, origin, description).store;
    forall e | e in s'.electionCandidates
      ensures ListsCandidates(cfg, s', e)
    {
      assert e in s.electionCandidates ==> ListsCandidates(cfg, s, e);
    }
  }

  lemma IndexedCreateCandidate(cfg: Config, s: Store, origin: Origin, name: Bytes, election: Hash)
    requires Indexed(cfg, s)
    ensures Indexed(cfg, CreateCandidateSpec(cfg, s, origin, name, election).store)
  {
    var Outcome(s', r) := CreateCandidateSpec(cfg, s, origin, name, election);
    if r.Ok? {
      var c := Candidate(name, election);
      assert s'.elections == s.elections && s'.candidates == s.candidates[CandidateId(cfg, name, election) := c];
      assert s'.electionCandidates == s.electionCandidates[election := s.electionCandidates[election] + [c]];
      forall e | e in s'.electionCandidates
        ensures ListsCandidates(cfg, s', e)
      {
        assert ListsCandidates(cfg, s, e);
      }
    }
  }

  lemma IndexedCloseElection(cfg: Config, s: Store, origin: Origin, election: Hash)
    requires Indexed(cfg, s)
    ensures Indexed(cfg, CloseElectionSpec(s, origin, election).store)
  {
    var s' := CloseElectionSpec(s, origin, election).store;
    assert s'.elections.Keys == s.elections.Keys;
    forall e | e in s'.electionCandidates
      ensures ListsCandidates(cfg, s', e)
    {
      assert ListsCandidates(cfg, s, e);
    }
  }

  /** Which votes the lists hold does not matter to the shape. */
  lemma IndexedIgnoresVotes(cfg: Config, s: Store, s': Store)
    requires Indexed(cfg, s)
    requires s'.elections == s.elections && s'.electionCandidates == s.electionCandidates
    requires s'.candidates == s.candidates
    requires s'.electionVotes.Keys == s.electionVotes.Keys && s'.candidateVotes.Keys == s.candidateVotes.Keys
    ensures Indexed(cfg, s')
  {
    forall e | e in s'.electionCandidates
      ensures ListsCandidates(cfg, s', e)
    {
      assert ListsCandidates(cfg, s, e);
    }
  }

  lemma {:induction false} IndexedStep(cfg: Config, s: Store, call: Call)
    requires Indexed(cfg, s)
    ensures Indexed(cfg, Step(cfg, s, call).store)
  {
    match call
    case CreateElection(origin, description) => IndexedCreateElection(cfg, s, origin, description);
    case CreateCandidate(origin, name, e) => IndexedCreateCandidate(cfg, s, origin, name, e);
    case CreateVote(origin, c, e) => IndexedIgnoresVotes(cfg, s, CreateVoteSpec(s, origin, c, e).store);
    case CloseElection(origin, e) => IndexedCloseElection(cfg, s, origin, e);
  }

  /** In every reachable state the maps are content-addressed and share their keys. */
  lemma {:induction false} ReachableIsIndexed(cfg: Config, calls: seq<Call>)
    ensures Indexed(cfg, Run(cfg, Genesis, calls))
  {
    if calls != [] {
      var init := calls[..|calls| - 1];
      ReachableIsIndexed(cfg, init);
      IndexedStep(cfg, Run(cfg, Genesis, init), calls[|calls| - 1]);
    }
  }

  /** With a collision-free hash, every listed candidate is the one stored at its own hash. */
  lemma ListedIsStored(cfg: Config, calls: seq<Call>, e: Hash, c: Candidate)
    requires CollisionFree(cfg)
    requires var s := Run(cfg, Genesis, calls); e in s.electionCandidates && c in s.electionCandidates[e]
    ensures var s := Run(cfg, Genesis, calls);
            var id := cfg.hashOfCandidate(c);
            c.electionId == e && id in s.candidates && s.candidates[id] == c && id in s.candidateVotes
  {
    ReachableIsIndexed(cfg, calls);
    var s := Run(cfg, Genesis, calls);
    assert ListsCandidates(cfg, s, e);
  }

  /** The election ids in storage are those some accepted call created. */
  lemma {:induction false} ElectionsAreTheCreated(cfg: Config, calls: seq<Call>, e: Hash)
    ensures e in Run(cfg, Genesis, calls).elections
       <==> exists k :: 0 <= k < |calls| && Creates(cfg, calls[k], e)
  {
    if calls != [] {
      var init, last := calls[..|calls| - 1], calls[|calls| - 1];
      ElectionsAreTheCreated(cfg, init, e);
      assert e in Run(cfg, Genesis, calls).elections
        <==> e in Run(cfg, Genesis, init).elections || Creates(cfg, last, e);
      assert forall k :: 0 <= k < |init| ==> init[k] == calls[k];
      assert calls[|calls| - 1] == last;
    }
  }

  /** A history that creates e once creates it while e is unknown. */
  lemma CreatedOnceIsFresh(cfg: Config, calls: seq<Call>, e: Hash)
    requires calls != [] && CreatedAtMostOnce(cfg, calls, e)
    ensures CreatedAtMostOnce(cfg, calls[..|calls| - 1], e)
    ensures Creates(cfg, calls[|calls| - 1], e) ==> e !in Run(cfg, Genesis, calls[..|calls| - 1]).elections
  {
    ElectionsAreTheCreated(cfg, calls[..|calls| - 1], e);
  }

  /** Every stored candidate is in the list of its election. */
  ghost predicate StoredAreListed(s: Store, e: Hash) {
    forall c :: c in s.candidates && s.candidates[c].electionId == e ==>
      e in s.electionCandidates && s.candidates[c] in s.electionCandidates[e]
  }

  lemma StoredAreListedRegistering(cfg: Config, s: Store, origin: Origin, name: Bytes, election: Hash, e: Hash)
    requires StoredAreListed(s, e)
    ensures StoredAreListed(CreateCandidateSpec(cfg, s, origin, name, election).store, e)
  {
    var Outcome(s', r) := CreateCandidateSpec(cfg, s, origin, name, election);
    if r.Ok? {
      var c := Candidate(name, election);
      assert s'.candidates == s.candidates[CandidateId(cfg, name, election) := c];
      assert c in s.electionCandidates[election] + [c];
    }
  }

  lemma StoredAreListedStep(cfg: Config, s: Store, call: Call, e: Hash)
    requires Indexed(cfg, s) && StoredAreListed(s, e)
    requires Creates(cfg, call, e) ==> e !in s.elections
    ensures StoredAreListed(Step(cfg, s, call).store, e)
  {
    if call.CreateCandidate? {
      StoredAreListedRegistering(cfg, s, call.origin, call.candidateName, call.electionId, e);
    } else {
      var s' := Step(cfg, s, call).store;
      assert s'.candidates == s.candidates;
      assert e in s.electionCandidates ==>
          e in s'.electionCandidates && s'.electionCandidates[e] == s.electionCandidates[e];
    }
  }

  /** The converse of ListedIsStored, for an election created once: nothing stored for it is missing from its list. */
  lemma {:induction false} StoredIsListed(cfg: Config, calls: seq<Call>, e: Hash)
    requires CreatedAtMostOnce(cfg, calls, e)
    ensures StoredAreListed(Run(cfg, Genesis, calls), e)
  {
    if calls != [] {
      var init := calls[..|calls| - 1];
      CreatedOnceIsFresh(cfg, calls, e);
      StoredIsListed(cfg, init, e);
      ReachableIsIndexed(cfg, init);
      StoredAreListedStep(cfg, Run(cfg, Genesis, init), calls[|calls| - 1], e);
    }
  }

  // ----- One vote each -----

  ghost predicate DistinctAuthors(votes: seq<Vote>) {
    forall i, j :: 0 <= i < j < |votes| ==> votes[i].author != votes[j].author
  }

  /** The list holds votes for e only, at most one of each author. */
  ghost predicate OneVoteList(votes: seq<Vote>, e: Hash) {
    DistinctAuthors(votes) && forall i :: 0 <= i < |votes| ==> votes[i].electionId == e
  }

  ghost predicate OneVoteEach(s: Store) {
    forall e :: e in s.electionVotes ==> OneVoteList(s.electionVotes[e], e)
  }

  lemma OneVoteStep(cfg: Config, s: Store, call: Call)
    requires OneVoteEach(s)
    ensures OneVoteEach(Step(cfg, s, call).store)
  {
    var s' := Step(cfg, s, call).store;
    forall e | e in s'.electionVotes
      ensures OneVoteList(s'.electionVotes[e], e)
    {
      if e in s.electionVotes {
        assert OneVoteList(s.electionVotes[e], e);
      }
    }
  }

  /** In every reachable state each election lists at most one vote per author, and only its own votes. */
  lemma {:induction false} ReachableOneVoteEach(cfg: Config, calls: seq<Call>)
    ensures OneVoteEach(Run(cfg, Genesis, calls))
  {
    if calls != [] {
      var init := calls[..|calls| - 1];
      ReachableOneVoteEach(cfg, init);
      OneVoteStep(cfg, Run(cfg, Genesis, init), calls[|calls| - 1]);
    }
  }

  // ----- The list of an election is what its voters were answered -----

  /** The votes for e whose calls answered Ok or CandidateNotFound, in the order of the history. */
  ghost function AnsweredVotes(cfg: Config, calls: seq<Call>, e: Hash): seq<Vote> {
    if calls == [] then []
    else
      var k := |calls| - 1;
      var r, call := Answer(cfg, Genesis, calls, k), calls[k];
      AnsweredVotes(cfg, calls[..k], e)
        + if call.CreateVote? && call.electionId == e && UsesUpVote(r) then
            [Vote(call.candidateId, e, call.origin.who)]
          else []
  }

  /** For an election created once, its list is exactly the answered votes: none is missing, added or moved. */
  lemma {:induction false} ListIsWhatWasAnswered(cfg: Config, calls: seq<Call>, e: Hash)
    requires CreatedAtMostOnce(cfg, calls, e)
    ensures ListAt(Run(cfg, Genesis, calls).electionVotes, e) == AnsweredVotes(cfg, calls, e)
  {
    if calls != [] {
      var init, last := calls[..|calls| - 1], calls[|calls| - 1];
      var s := Run(cfg, Genesis, init);
      CreatedOnceIsFresh(cfg, calls, e);
      ListIsWhatWasAnswered(cfg, init, e);
      ReachableIsIndexed(cfg, init);
      ElectionListAfter(cfg, s, last, e);
      assert Answer(cfg, Genesis, calls, |calls| - 1) == Step(cfg, s, last).result;
    }
  }

  /** The votes for c whose calls answered Ok since c was last registered, in the order of the history. */
  ghost function RecordedVotes(cfg: Config, calls: seq<Call>, c: Hash): seq<Vote> {
    if calls == [] then []
    else
      var k := |calls| - 1;
      var call := calls[k];
      if Registers(cfg, Run(cfg, Genesis, calls[..k]), call, c) then []
      else
        RecordedVotes(cfg, calls[..k], c)
          + if call.CreateVote? && call.candidateId == c && Answer(cfg, Genesis, calls, k).Ok? then
              [Vote(c, call.electionId, call.origin.who)]
            else []
  }

  /** In every history the list of a candidate is exactly the votes accepted since its last registration. */
  lemma {:induction false} CandidateListIsWhatWasAccepted(cfg: Config, calls: seq<Call>, c: Hash)
    ensures ListAt(Run(cfg, Genesis, calls).candidateVotes, c) == RecordedVotes(cfg, calls, c)
  {
    if calls != [] {
      var init, last := calls[..|calls| - 1], calls[|calls| - 1];
      CandidateListIsWhatWasAccepted(cfg, init, c);
      CandidateListAfter(cfg, Run(cfg, Genesis, init), last, c);
    }
  }

  /** The candidates whose calls for e answered Ok, in the order of the history, repetitions included. */
  ghost function RegisteredCandidates(cfg: Config, calls: seq<Call>, e: Hash): seq<Candidate> {
    if calls == [] then []
    else
      var k := |calls| - 1;
      RegisteredCandidates(cfg, calls[..k], e)
        + if calls[k].CreateCandidate? && calls[k].electionId == e && Answer(cfg, Genesis, calls, k).Ok? then
            [Candidate(calls[k].candidateName, e)]
          else []
  }

  lemma CandidatesAfter(cfg: Config, s: Store, call: Call, e: Hash)
    ensures CandidatesAt(Step(cfg, s, call).store, e)
         == if Creates(cfg, call, e) then []
            else CandidatesAt(s, e) + if Nominates(cfg, s, call, e) then [Candidate(call.candidateName, e)] else []
  {
  }

  function CandidatesAt(s: Store, e: Hash): seq<Candidate> {
    if e in s.electionCandidates then s.electionCandidates[e] else []
  }

  /** For an election created once, its candidates are exactly those registered, in the order they were. */
  lemma {:induction false} CandidatesAreThoseRegistered(cfg: Config, calls: seq<Call>, e: Hash)
    requires CreatedAtMostOnce(cfg, calls, e)
    ensures CandidatesAt(Run(cfg, Genesis, calls), e) == RegisteredCandidates(cfg, calls, e)
  {
    if calls != [] {
      var init, last := calls[..|calls| - 1], calls[|calls| - 1];
      CreatedOnceIsFresh(cfg, calls, e);
      CandidatesAreThoseRegistered(cfg, init, e);
      ReachableIsIndexed(cfg, init);
      CandidatesAfter(cfg, Run(cfg, Genesis, init), last, e);
    }
  }

  // ----- Sizes -----

  /** Every stored description and name has a length that passes the bounds once cast to u32. */
  ghost predicate WithinBounds(cfg: Config, s: Store) {
    && (forall e :: e in s.elections ==> DescriptionFits(cfg, s.elections[e].description))
    && (forall c :: c in s.candidates ==> NameFits(cfg, s.candidates[c].candidateName))
  }

  lemma DescriptionsFitStep(cfg: Config, s: Store, call: Call, e: Hash)
    requires e in s.elections ==> DescriptionFits(cfg, s.elections[e].description)
    ensures var s' := Step(cfg, s, call).store;
            e in s'.elections ==> DescriptionFits(cfg, s'.elections[e].description)
  {
  }

  lemma NamesFitStep(cfg: Config, s: Store, call: Call, c: Hash)
    requires c in s.candidates ==> NameFits(cfg, s.candidates[c].candidateName)
    ensures var s' := Step(cfg, s, call).store;
            c in s'.candidates ==> NameFits(cfg, s'.candidates[c].candidateName)
  {
  }

  /** In every reachable state the bounds hold, but of the lengths as the cast leaves them. */
  lemma {:induction false} ReachableWithinBounds(cfg: Config, calls: seq<Call>)
    ensures WithinBounds(cfg, Run(cfg, Genesis, calls))
  {
    if calls != [] {
      var init := calls[..|calls| - 1];
      ReachableWithinBounds(cfg, init);
      var s, s' := Run(cfg, Genesis, init), Run(cfg, Genesis, calls);
      forall e | e in s'.elections
        ensures DescriptionFits(cfg, s'.elections[e].description)
      {
        DescriptionsFitStep(cfg, s, calls[|calls| - 1], e);
      }
      forall c | c in s'.candidates
        ensures NameFits(cfg, s'.candidates[c].candidateName)
      {
        NamesFitStep(cfg, s, calls[|calls| - 1], c);
      }
    }
  }
}
