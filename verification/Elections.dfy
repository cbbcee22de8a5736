/**
 The election pallet: five storage maps and the four calls that change them.

 `Step` says what one call does to the storage and what it answers; `Run` is a whole history of calls.
 The class `Pallet` performs the calls the way the runtime does, write by write, and is proved to do
 exactly what `Step` says.
 */
module Elections {
  import opened Prelude

  type U32 = n: int | 0 <= n < 0x1_0000_0000

  /** Content hashes and account ids, with nothing assumed about how they are computed. */
  type Hash = nat
  type AccountId = nat

  datatype Election = Election(description: Bytes, isOpen: bool)
  datatype Candidate = Candidate(candidateName: Bytes, electionId: Hash)
  datatype Vote = Vote(candidateId: Hash, electionId: Hash, author: AccountId)

  datatype Origin = Root | Signed(who: AccountId) | Unsigned

  datatype Error =
    | BadOrigin
    | ElectionNotEnoughBytes
    | ElectionTooManyBytes
    | CandidateNotEnoughBytes
    | CandidateTooManyBytes
    | ElectionNotFound
    | CandidateNotFound

  datatype Event =
    | ElectionStored(description: Bytes, electionId: Hash)
    | ElectionUpdated(isOpen: bool, electionId: Hash)
    | CandidateStored(candidateName: Bytes, candidateId: Hash)
    | VoteStored(electionId: Hash, candidateId: Hash)

  /** A successful call deposits exactly one event; a failed one deposits none. */
  datatype DispatchResult = Ok(event: Event) | Err(error: Error)

  /** The pallet's constants and its hash, as the runtime configures them. */
  datatype Config = Config(
    electionMinBytes: U32,
    electionMaxBytes: U32,
    candidateMinBytes: U32,
    candidateMaxBytes: U32,
    hashOfElection: Election -> Hash,
    hashOfCandidate: Candidate -> Hash)

  /** The value of all five storage maps. */
  datatype Store = Store(
    elections: map<Hash, Election>,
    electionCandidates: map<Hash, seq<Candidate>>,
    electionVotes: map<Hash, seq<Vote>>,
    candidates: map<Hash, Candidate>,
    candidateVotes: map<Hash, seq<Vote>>)

  const Genesis := Store(map[], map[], map[], map[], map[])

  datatype Call =
    | CreateElection(origin: Origin, description: Bytes)
    | CloseElection(origin: Origin, electionId: Hash)
    | CreateCandidate(origin: Origin, candidateName: Bytes, electionId: Hash)
    | CreateVote(origin: Origin, candidateId: Hash, electionId: Hash)

  datatype Outcome = Outcome(store: Store, result: DispatchResult)

  /** The length of a byte vector after the cast to u32, which drops the high bits. */
  function LenAsU32(b: Bytes): U32 {
    |b| % 0x1_0000_0000
  }

  function ElectionId(cfg: Config, description: Bytes): Hash {
    cfg.hashOfElection(Election(description, true))
  }

  function CandidateId(cfg: Config, candidateName: Bytes, electionId: Hash): Hash {
    cfg.hashOfCandidate(Candidate(candidateName, electionId))
  }

  ghost predicate HasVoted(votes: seq<Vote>, who: AccountId) {
    exists i :: 0 <= i < |votes| && votes[i].author == who
  }

  predicate IsOpen(s: Store, e: Hash) {
    e in s.elections && s.elections[e].isOpen
  }

  /** The election is open and has no vote of this author yet. */
  ghost predicate TakesVote(s: Store, e: Hash, who: AccountId) {
    IsOpen(s, e) && e in s.electionVotes && !HasVoted(s.electionVotes[e], who)
  }

  function CreateElectionSpec(cfg: Config, s: Store, origin: Origin, description: Bytes): Outcome {
    var id := ElectionId(cfg, description);
    if origin != Root then Outcome(s, Err(BadOrigin))
    else if LenAsU32(description) <= cfg.electionMinBytes then Outcome(s, Err(ElectionNotEnoughBytes))
    else if cfg.electionMaxBytes <= LenAsU32(description) then Outcome(s, Err(ElectionTooManyBytes))
    else
      Outcome(
        s.(elections := s.elections[id := Election(description, true)],
           electionCandidates := s.electionCandidates[id := []],
           electionVotes := s.electionVotes[id := []]),
        Ok(ElectionStored(description, id)))
  }

  function CloseElectionSpec(s: Store, origin: Origin, e: Hash): Outcome {
    if origin != Root then Outcome(s, Err(BadOrigin))
    else if !IsOpen(s, e) then Outcome(s, Err(ElectionNotFound))
    else
      Outcome(s.(elections := s.elections[e := Election(s.elections[e].description, false)]),
              Ok(ElectionUpdated(false, e)))
  }

  function CreateCandidateSpec(cfg: Config, s: Store, origin: Origin, name: Bytes, e: Hash): Outcome {
    var id := CandidateId(cfg, name, e);
    if origin != Root then Outcome(s, Err(BadOrigin))
    else if LenAsU32(name) <= cfg.candidateMinBytes then Outcome(s, Err(CandidateNotEnoughBytes))
    else if cfg.candidateMaxBytes <= LenAsU32(name) then Outcome(s, Err(CandidateTooManyBytes))
    else if e !in s.electionCandidates then Outcome(s, Err(ElectionNotFound))
    else
      Outcome(
        s.(electionCandidates := s.electionCandidates[e := s.electionCandidates[e] + [Candidate(name, e)]],
           candidates := s.candidates[id := Candidate(name, e)],
           candidateVotes := s.candidateVotes[id := []]),
        Ok(CandidateStored(name, id)))
  }

  /** The vote reaches the election's list before the candidate is looked up, and stays there. */
  ghost function CreateVoteSpec(s: Store, origin: Origin, c: Hash, e: Hash): Outcome {
    if !origin.Signed? then Outcome(s, Err(BadOrigin))
    else if !TakesVote(s, e, origin.who) then Outcome(s, Err(ElectionNotFound))
    else
      var vote := Vote(c, e, origin.who);
      var listed := s.(electionVotes := s.electionVotes[e := s.electionVotes[e] + [vote]]);
      if c !in s.candidateVotes then Outcome(listed, Err(CandidateNotFound))
      else
        Outcome(listed.(candidateVotes := s.candidateVotes[c := s.candidateVotes[c] + [vote]]),
                Ok(VoteStored(e, c)))
  }

  ghost function Step(cfg: Config, s: Store, call: Call): Outcome {
    match call
    case CreateElection(origin, description) => CreateElectionSpec(cfg, s, origin, description)
    case CloseElection(origin, e) => CloseElectionSpec(s, origin, e)
    case CreateCandidate(origin, name, e) => CreateCandidateSpec(cfg, s, origin, name, e)
    case CreateVote(origin, c, e) => CreateVoteSpec(s, origin, c, e)
  }

  /** The storage after a history of calls. */
  ghost function Run(cfg: Config, s: Store, calls: seq<Call>): Store {
    if calls == [] then s
    else Step(cfg, Run(cfg, s, calls[..|calls| - 1]), calls[|calls| - 1]).store
  }

  /** What the k-th call of a history answered. */
  ghost function Answer(cfg: Config, s: Store, calls: seq<Call>, k: nat): DispatchResult
    requires k < |calls|
  {
    Step(cfg, Run(cfg, s, calls[..k]), calls[k]).result
  }

  lemma RunNext(cfg: Config, s: Store, calls: seq<Call>, k: nat)
    requires k < |calls|
    ensures Run(cfg, s, calls[..k + 1]) == Step(cfg, Run(cfg, s, calls[..k]), calls[k]).store
  {
    assert calls[..k + 1][..k] == calls[..k];
  }

  /** A history can be cut in two at any call. */
  lemma {:induction false} RunSplit(cfg: Config, s: Store, calls: seq<Call>, k: nat)
    requires k <= |calls|
    ensures Run(cfg, s, calls) == Run(cfg, Run(cfg, s, calls[..k]), calls[k..])
  {
    if k == |calls| {
      assert calls[..k] == calls;
    } else {
      var n := |calls| - 1;
      RunSplit(cfg, s, calls[..n], k);
      assert calls[..n][..k] == calls[..k] && calls[..n][k..] == calls[k..][..n - k];
    }
  }

  /** The runtime storage, changed in place. */
  class Pallet {
    const config: Config
    var elections: map<Hash, Election>
    var electionCandidates: map<Hash, seq<Candidate>>
    var electionVotes: map<Hash, seq<Vote>>
    var candidates: map<Hash, Candidate>
    var candidateVotes: map<Hash, seq<Vote>>

    function Storage(): Store
      reads this
    {
      Store(elections, electionCandidates, electionVotes, candidates, candidateVotes)
    }

    constructor (config: Config)
      ensures this.config == config && Storage() == Genesis
    {
      this.config := config;
      elections, electionCandidates, electionVotes, candidates, candidateVotes := map[], map[], map[], map[], map[];
    }

    method CreateElection(origin: Origin, description: Bytes) returns (r: DispatchResult)
      modifies this
      ensures Outcome(Storage(), r) == Step(config, old(Storage()), Call.CreateElection(origin, description))
    {
      if origin != Root { return Err(BadOrigin); }
      if !(LenAsU32(description) > config.electionMinBytes) { return Err(ElectionNotEnoughBytes); }
      if !(LenAsU32(description) < config.electionMaxBytes) { return Err(ElectionTooManyBytes); }
      var election := Election(description, true);
      var electionId := config.hashOfElection(election);
      elections := elections[electionId := election];
      electionCandidates := electionCandidates[electionId := []];
      electionVotes := electionVotes[electionId := []];
      return Ok(ElectionStored(description, electionId));
    }

    method CloseElection(origin: Origin, electionId: Hash) returns (r: DispatchResult)
      modifies this
      ensures Outcome(Storage(), r) == Step(config, old(Storage()), Call.CloseElection(origin, electionId))
    {
      if origin != Root { return Err(BadOrigin); }
      var isOpen := false;
      if electionId !in elections { return Err(ElectionNotFound); }
      var election := elections[electionId];
      if !election.isOpen { return Err(ElectionNotFound); }
      elections := elections[electionId := election.(isOpen := isOpen)];
      return Ok(ElectionUpdated(isOpen, electionId));
    }

    method CreateCandidate(origin: Origin, candidateName: Bytes, electionId: Hash) returns (r: DispatchResult)
      modifies this
      ensures Outcome(Storage(), r)
           == Step(config, old(Storage()), Call.CreateCandidate(origin, candidateName, electionId))
    {
      if origin != Root { return Err(BadOrigin); }
      if !(LenAsU32(candidateName) > config.candidateMinBytes) { return Err(CandidateNotEnoughBytes); }
      if !(LenAsU32(candidateName) < config.candidateMaxBytes) { return Err(CandidateTooManyBytes); }
      var candidate := Candidate(candidateName, electionId);
      var candidateId := config.hashOfCandidate(candidate);
      if electionId !in electionCandidates { return Err(ElectionNotFound); }
      electionCandidates := electionCandidates[electionId := electionCandidates[electionId] + [candidate]];
      candidates := candidates[candidateId := candidate];
      candidateVotes := candidateVotes[candidateId := []];
      return Ok(CandidateStored(candidateName, candidateId));
    }

    method CreateVote(origin: Origin, candidateId: Hash, electionId: Hash) returns (r: DispatchResult)
      modifies this
      ensures Outcome(Storage(), r) == Step(config, old(Storage()), Call.CreateVote(origin, candidateId, electionId))
    {
      if !origin.Signed? { return Err(BadOrigin); }
      var voteAuthor := origin.who;
      var vote := Vote(candidateId, electionId, voteAuthor);
      if electionId !in elections { return Err(ElectionNotFound); }
      if !elections[electionId].isOpen { return Err(ElectionNotFound); }

      if electionId !in electionVotes { return Err(ElectionNotFound); }
      var votes := electionVotes[electionId];
      var voteExists := false;
      for i := 0 to |votes|
        invariant voteExists <==> HasVoted(votes[..i], voteAuthor)
      {
        assert votes[..i + 1] == votes[..i] + [votes[i]];
        assert forall j :: 0 <= j < i ==> votes[..i + 1][j] == votes[..i][j];
        if votes[i].author == voteAuthor {
          assert votes[..i + 1][i].author == voteAuthor;
          voteExists := true;
        }
      }
      assert votes[..|votes|] == votes;
      if voteExists { return Err(ElectionNotFound); }
      electionVotes := electionVotes[electionId := votes + [vote]];

      if candidateId !in candidateVotes { return Err(CandidateNotFound); }
      candidateVotes := candidateVotes[candidateId := candidateVotes[candidateId] + [vote]];
      return Ok(VoteStored(electionId, candidateId));
    }
  }
}
