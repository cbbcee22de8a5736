/**
 Every vote is stored twice: in the list of its election and in the list of its candidate. This module says how
 far the two indexes agree over whole histories, including those with failed calls and re-registered candidates.
 */
module Agreement {
  import opened Prelude
  import opened Elections
  import opened Indexes

  function NamesElection(e: Hash): Vote -> bool {
    (v: Vote) => v.electionId == e
  }

  function NamesCandidate(c: Hash): Vote -> bool {
    (v: Vote) => v.candidateId == c
  }

  function VotesFor(votes: seq<Vote>, e: Hash): seq<Vote> {
    Filter(NamesElection(e), votes)
  }

  function VotesNaming(votes: seq<Vote>, c: Hash): seq<Vote> {
    Filter(NamesCandidate(c), votes)
  }

  /** What a candidate's list holds for e is the latest part of what e's list holds for c, in the same order. */
  ghost predicate Tracks(candidateList: seq<Vote>, electionList: seq<Vote>, e: Hash, c: Hash) {
    IsSuffix(VotesFor(candidateList, e), VotesNaming(electionList, c))
  }

  ghost predicate AgreeOn(s: Store, e: Hash, c: Hash) {
    Tracks(ListAt(s.candidateVotes, c), ListAt(s.electionVotes, e), e, c)
  }

  ghost predicate Agrees(s: Store, e: Hash) {
    forall c :: AgreeOn(s, e, c)
  }

  /** Some candidate list already holds a vote for e. */
  ghost predicate HasRecordedVotes(s: Store, e: Hash) {
    exists c :: VotesFor(ListAt(s.candidateVotes, c), e) != []
  }

  /**
   A vote that e's list takes must also reach c's list if it names c, unless c's list is empty; a vote for e that c's
   list takes must also be in e's list.
   */
  lemma TracksPush(cl: seq<Vote>, el: seq<Vote>, e: Hash, c: Hash, v: Vote, toCandidate: bool, toElection: bool)
    requires Tracks(cl, el, e, c)
    requires (toCandidate ==> v.candidateId == c) && (toElection ==> v.electionId == e)
    requires toCandidate && v.electionId == e ==> toElection
    requires toElection && v.candidateId == c ==> toCandidate || cl == []
    ensures Tracks(Gain(cl, v, toCandidate), Gain(el, v, toElection), e, c)
  {
    FilterGain(NamesElection(e), cl, v, toCandidate);
    FilterGain(NamesCandidate(c), el, v, toElection);
    SuffixGain(VotesFor(cl, e), VotesNaming(el, c), v,
               toCandidate && v.electionId == e, toElection && v.candidateId == c);
  }

  /** Where the vote of one call goes, in terms of one election list and one candidate list. */
  lemma ListsAfterVote(cfg: Config, s: Store, call: Call, e: Hash, c: Hash)
    requires Listed(s, call) != []
    ensures var s', v := Step(cfg, s, call).store, Listed(s, call)[0];
            && call.CreateVote? && v.electionId == call.electionId && v.candidateId == call.candidateId
            && ListAt(s'.electionVotes, e) == Gain(ListAt(s.electionVotes, e), v, call.electionId == e)
            && ListAt(s'.candidateVotes, c)
               == Gain(ListAt(s.candidateVotes, c), v, call.candidateId == c && c in s.candidateVotes)
  {
    ElectionListAfter(cfg, s, call, e);
    CandidateListAfter(cfg, s, call, c);
    RecordedOrUnregistered(s, call);
    var cl, el := ListAt(s.candidateVotes, c), ListAt(s.electionVotes, e);
    assert cl + [] == cl && el + [] == el;
  }

  /** Other calls leave both lists as they are, or empty that of the candidate. */
  lemma ListsAfterOther(cfg: Config, s: Store, call: Call, e: Hash, c: Hash)
    requires Listed(s, call) == [] && !Creates(cfg, call, e)
    ensures var s' := Step(cfg, s, call).store;
            && ListAt(s'.electionVotes, e) == ListAt(s.electionVotes, e)
            && (ListAt(s'.candidateVotes, c) == ListAt(s.candidateVotes, c) || ListAt(s'.candidateVotes, c) == [])
  {
    ElectionListAfter(cfg, s, call, e);
    CandidateListAfter(cfg, s, call, c);
    var cl, el := ListAt(s.candidateVotes, c), ListAt(s.electionVotes, e);
    assert cl + [] == cl && el + [] == el;
  }

  lemma AgreesUnlessCreated(cfg: Config, s: Store, call: Call, e: Hash, c: Hash)
    requires AgreeOn(s, e, c) && !Creates(cfg, call, e)
    ensures AgreeOn(Step(cfg, s, call).store, e, c)
  {
    var s' := Step(cfg, s, call).store;
    var cl, el := ListAt(s.candidateVotes, c), ListAt(s.electionVotes, e);
    if Listed(s, call) != [] {
      ListsAfterVote(cfg, s, call, e, c);
      TracksPush(cl, el, e, c, Listed(s, call)[0],
                 call.candidateId == c && c in s.candidateVotes, call.electionId == e);
    } else {
      ListsAfterOther(cfg, s, call, e, c);
      assert Tracks([], el, e, c);
    }
  }

  /** A newly created e has an empty list, so agreement on e then means no candidate list holds a vote for e. */
  lemma AgreesOnCreated(cfg: Config, s: Store, call: Call, e: Hash, c: Hash)
    requires Creates(cfg, call, e)
    ensures AgreeOn(Step(cfg, s, call).store, e, c) <==> VotesFor(ListAt(s.candidateVotes, c), e) == []
  {
    ElectionListAfter(cfg, s, call, e);
    CandidateListAfter(cfg, s, call, c);
    assert ListAt(s.candidateVotes, c) + [] == ListAt(s.candidateVotes, c);
  }

  /**
   Exactly when one call keeps the two indexes in agreement on e: always, except when it creates e while some
   candidate list already holds a vote for e.
   */
  lemma AgreementKeptIff(cfg: Config, s: Store, call: Call, e: Hash)
    requires Agrees(s, e)
    ensures Agrees(Step(cfg, s, call).store, e) <==> !(Creates(cfg, call, e) && HasRecordedVotes(s, e))
  {
    forall c
      ensures Creates(cfg, call, e) ==>
                (AgreeOn(Step(cfg, s, call).store, e, c) <==> VotesFor(ListAt(s.candidateVotes, c), e) == [])
      ensures !Creates(cfg, call, e) ==> AgreeOn(Step(cfg, s, call).store, e, c)
    {
      if Creates(cfg, call, e) {
        AgreesOnCreated(cfg, s, call, e, c);
      } else {
        assert AgreeOn(s, e, c);
        AgreesUnlessCreated(cfg, s, call, e, c);
      }
    }
  }

  /** In every history that creates e at most once, the two indexes agree on e for every candidate. */
  lemma {:induction false} IndexesAgree(cfg: Config, calls: seq<Call>, e: Hash)
    requires CreatedAtMostOnce(cfg, calls, e)
    ensures Agrees(Run(cfg, Genesis, calls), e)
  {
    if calls == [] {
      assert forall c :: AgreeOn(Genesis, e, c);
    } else {
      var init, last := calls[..|calls| - 1], calls[|calls| - 1];
      var s := Run(cfg, Genesis, init);
      CreatedOnceIsFresh(cfg, calls, e);
      IndexesAgree(cfg, init, e);
      ReachableIsIndexed(cfg, init);
      if Creates(cfg, last, e) {
        forall c
          ensures VotesFor(ListAt(s.candidateVotes, c), e) == []
        {
          assert AgreeOn(s, e, c);
        }
      }
      AgreementKeptIff(cfg, s, last, e);
    }
  }

  // ----- One vote across all candidate lists -----

  lemma {:induction false} DistinctInFilter(p: Vote -> bool, votes: seq<Vote>)
    requires DistinctAuthors(votes)
    ensures DistinctAuthors(Filter(p, votes))
  {
    if votes != [] {
      var init, last := votes[..|votes| - 1], votes[|votes| - 1];
      DistinctInFilter(p, init);
      var f := Filter(p, init);
      FilterMembers(p, init);
      forall i | 0 <= i < |f|
        ensures f[i].author != last.author
      {
        assert f[i] in init;
      }
    }
  }

  /** Two places of a list that p selects are two places of the filtered list. */
  lemma {:induction false} DistinctFromFilter(p: Vote -> bool, votes: seq<Vote>, i: nat, j: nat)
    requires i < j < |votes| && p(votes[i]) && p(votes[j])
    requires DistinctAuthors(Filter(p, votes))
    ensures votes[i].author != votes[j].author
  {
    var init, last := votes[..|votes| - 1], votes[|votes| - 1];
    var f := Filter(p, init);
    if p(last) {
      assert Filter(p, votes) == f + [last];
      forall a, b | 0 <= a < b < |f|
        ensures f[a].author != f[b].author
      {
        assert (f + [last])[a] == f[a] && (f + [last])[b] == f[b];
      }
    }
    if j < |init| {
      DistinctFromFilter(p, init, i, j);
    } else {
      FilterMembers(p, init);
      assert init[i] in init;
      var k :| 0 <= k < |f| && f[k] == votes[i];
      assert (f + [last])[k] == votes[i] && (f + [last])[|f|] == last;
    }
  }

  lemma SuffixKeepsDistinct(a: seq<Vote>, b: seq<Vote>)
    requires IsSuffix(a, b) && DistinctAuthors(b)
    ensures DistinctAuthors(a)
  {
    forall i, j | 0 <= i < j < |a|
      ensures a[i].author != a[j].author
    {
      assert a[i] == b[|b| - |a| + i] && a[j] == b[|b| - |a| + j];
    }
  }

  /** A vote for e kept by candidate c is kept by e, and names c. */
  lemma RecordedIsListed(s: Store, e: Hash, c: Hash, v: Vote)
    requires AgreeOn(s, e, c)
    requires v in ListAt(s.candidateVotes, c) && v.electionId == e
    ensures v in ListAt(s.electionVotes, e) && v.candidateId == c
  {
    var a, b := VotesFor(ListAt(s.candidateVotes, c), e), VotesNaming(ListAt(s.electionVotes, e), c);
    FilterMembers(NamesElection(e), ListAt(s.candidateVotes, c));
    FilterMembers(NamesCandidate(c), ListAt(s.electionVotes, e));
    var k :| 0 <= k < |a| && a[k] == v;
    assert b[|b| - |a| + k] == v && v in b;
  }

  /** Place i of c's list holds a vote by this author for e. */
  ghost predicate RecordedAt(s: Store, e: Hash, who: AccountId, c: Hash, i: int) {
    && 0 <= i < |ListAt(s.candidateVotes, c)|
    && ListAt(s.candidateVotes, c)[i].electionId == e
    && ListAt(s.candidateVotes, c)[i].author == who
  }

  ghost predicate HasRecord(s: Store, e: Hash, who: AccountId) {
    exists c, i :: RecordedAt(s, e, who, c, i)
  }

  /** No author has two votes for e in all candidate lists together. */
  ghost predicate OneRecorded(s: Store, e: Hash) {
    forall who, c1, i1, c2, i2 :: RecordedAt(s, e, who, c1, i1) && RecordedAt(s, e, who, c2, i2) ==>
      c1 == c2 && i1 == i2
  }

  lemma RecordedOnce(s: Store, e: Hash, who: AccountId, c1: Hash, i1: nat, c2: Hash, i2: nat)
    requires AgreeOn(s, e, c1) && AgreeOn(s, e, c2) && OneVoteEach(s)
    requires RecordedAt(s, e, who, c1, i1) && RecordedAt(s, e, who, c2, i2)
    ensures c1 == c2 && i1 == i2
  {
    var list1, list2 := ListAt(s.candidateVotes, c1), ListAt(s.candidateVotes, c2);
    RecordedIsListed(s, e, c1, list1[i1]);
    RecordedIsListed(s, e, c2, list2[i2]);
    assert OneVoteList(s.electionVotes[e], e);
    if i1 != i2 {
      DistinctInFilter(NamesCandidate(c1), s.electionVotes[e]);
      SuffixKeepsDistinct(VotesFor(list1, e), VotesNaming(s.electionVotes[e], c1));
      DistinctFromFilter(NamesElection(e), list1, if i1 < i2 then i1 else i2, if i1 < i2 then i2 else i1);
    }
  }

  /** An author has at most one vote for e in all candidate lists together, if e was created at most once. */
  lemma OneVoteAcrossCandidates(cfg: Config, calls: seq<Call>, e: Hash)
    requires CreatedAtMostOnce(cfg, calls, e)
    ensures OneRecorded(Run(cfg, Genesis, calls), e)
  {
    var s := Run(cfg, Genesis, calls);
    IndexesAgree(cfg, calls, e);
    ReachableOneVoteEach(cfg, calls);
    forall who, c1, i1, c2, i2 | RecordedAt(s, e, who, c1, i1) && RecordedAt(s, e, who, c2, i2)
      ensures c1 == c2 && i1 == i2
    {
      assert AgreeOn(s, e, c1) && AgreeOn(s, e, c2);
      RecordedOnce(s, e, who, c1, i1, c2, i2);
    }
  }

  // ----- When a call gives an author a second recorded vote -----

  /** The call is an accepted vote for e: its author is taken by e, and its candidate is registered. */
  ghost predicate RecordsVote(s: Store, call: Call, e: Hash) {
    && call.CreateVote? && call.origin.Signed? && call.electionId == e
    && TakesVote(s, e, call.origin.who) && call.candidateId in s.candidateVotes
  }

  lemma RecordedForItsCandidate(s: Store, call: Call, e: Hash, c: Hash)
    ensures RecordsVote(s, call, e) && call.candidateId == c ==>
              RecordedFor(s, call, c) == [Vote(c, e, call.origin.who)]
    ensures forall v :: v in RecordedFor(s, call, c) ==>
              RecordsVote(s, call, v.electionId) && call.candidateId == c && v.author == call.origin.who
    ensures |RecordedFor(s, call, c)| <= 1
  {
  }

  /** A record after the call is from before, or is the vote the call has put at the end of its candidate's list. */
  lemma RecordAfter(cfg: Config, s: Store, call: Call, e: Hash, who: AccountId, c: Hash, i: int)
    requires RecordedAt(Step(cfg, s, call).store, e, who, c, i)
    ensures RecordedAt(s, e, who, c, i)
         || (RecordsVote(s, call, e) && who == call.origin.who && c == call.candidateId
             && i == |ListAt(s.candidateVotes, c)|)
  {
    CandidateListAfter(cfg, s, call, c);
    RecordedForItsCandidate(s, call, e, c);
    var added := RecordedFor(s, call, c);
    if i >= |ListAt(s.candidateVotes, c)| {
      assert added[i - |ListAt(s.candidateVotes, c)|] in added;
    }
  }

  /** An accepted vote keeps every record and adds its own. */
  lemma RecordKept(cfg: Config, s: Store, call: Call, e: Hash, who: AccountId, c: Hash, i: int)
    requires RecordsVote(s, call, e)
    ensures RecordedAt(s, e, who, c, i) ==> RecordedAt(Step(cfg, s, call).store, e, who, c, i)
    ensures RecordedAt(Step(cfg, s, call).store, e, call.origin.who, call.candidateId,
                       |ListAt(s.candidateVotes, call.candidateId)|)
  {
    CandidateListAfter(cfg, s, call, c);
    CandidateListAfter(cfg, s, call, call.candidateId);
    RecordedForItsCandidate(s, call, e, call.candidateId);
  }

  /**
   Exactly when one call keeps "one recorded vote per author" for e: always, except when it is an accepted vote for e
   whose author already has a recorded one. Creating e again is what makes that possible, but does not do it alone.
   */
  lemma OneRecordedKeptIff(cfg: Config, s: Store, call: Call, e: Hash)
    requires OneRecorded(s, e)
    ensures OneRecorded(Step(cfg, s, call).store, e)
       <==> !(RecordsVote(s, call, e) && HasRecord(s, e, call.origin.who))
  {
    var s' := Step(cfg, s, call).store;
    if RecordsVote(s, call, e) && HasRecord(s, e, call.origin.who) {
      var c, i :| RecordedAt(s, e, call.origin.who, c, i);
      RecordKept(cfg, s, call, e, call.origin.who, c, i);
    } else {
      forall who, c1, i1, c2, i2 | RecordedAt(s', e, who, c1, i1) && RecordedAt(s', e, who, c2, i2)
        ensures c1 == c2 && i1 == i2
      {
        RecordAfter(cfg, s, call, e, who, c1, i1);
        RecordAfter(cfg, s, call, e, who, c2, i2);
      }
    }
  }

  // ----- What creating an election again costs -----

  /** Create an election and a candidate, vote, create the same election again, and vote again. */
  function RecreationHistory(cfg: Config, description: Bytes, name: Bytes, who: AccountId): seq<Call> {
    var e := ElectionId(cfg, description);
    var c := CandidateId(cfg, name, e);
    [CreateElection(Root, description), CreateCandidate(Root, name, e), CreateVote(Signed(who), c, e)]
      + [CreateElection(Root, description), CreateVote(Signed(who), c, e)]
  }

  lemma RecreationState(cfg: Config, description: Bytes, name: Bytes, who: AccountId) returns (s: Store)
    requires DescriptionFits(cfg, description) && NameFits(cfg, name)
    ensures s == Run(cfg, Genesis, RecreationHistory(cfg, description, name, who))
    ensures var e := ElectionId(cfg, description);
            var c := CandidateId(cfg, name, e);
            var v := Vote(c, e, who);
            ListAt(s.electionVotes, e) == [v] && ListAt(s.candidateVotes, c) == [v] + [v]
  {
    var e := ElectionId(cfg, description);
    var c := CandidateId(cfg, name, e);
    var h := RecreationHistory(cfg, description, name, who);
    var election := map[e := Election(description, true)];
    var candidate := Candidate(name, e);
    var v := Vote(c, e, who);
    s := Genesis;
    var s1 := Store(election, map[e := []], map[e := []], map[], map[]);
    assert Step(cfg, s, h[0]).store == s1;
    var s2 := Store(election, map[e := [] + [candidate]], map[e := []], map[c := candidate], map[c := []]);
    assert Step(cfg, s1, h[1]).store == s2;
    var s3 := Store(election, map[e := [] + [candidate]], map[e := [] + [v]], map[c := candidate], map[c := [] + [v]]);
    assert Step(cfg, s2, h[2]).store == s3;
    var s4 := Store(election, map[e := []], map[e := []], map[c := candidate], map[c := [] + [v]]);
    assert Step(cfg, s3, h[3]).store == s4;
    var s5 := Store(election, map[e := []], map[e := [] + [v]], map[c := candidate], map[c := [] + [v] + [v]]);
    assert Step(cfg, s4, h[4]).store == s5;
    RunOfFive(cfg, h, s1, s2, s3, s4, s5);
    s := s5;
  }

  lemma RunOfFive(cfg: Config, h: seq<Call>, s1: Store, s2: Store, s3: Store, s4: Store, s5: Store)
    requires |h| == 5
    requires Step(cfg, Genesis, h[0]).store == s1 && Step(cfg, s1, h[1]).store == s2
    requires Step(cfg, s2, h[2]).store == s3 && Step(cfg, s3, h[3]).store == s4 && Step(cfg, s4, h[4]).store == s5
    ensures Run(cfg, Genesis, h) == s5
  {
    assert h[..0] == [] && h[..5] == h;
    RunNext(cfg, Genesis, h, 0);
    RunNext(cfg, Genesis, h, 1);
    RunNext(cfg, Genesis, h, 2);
    RunNext(cfg, Genesis, h, 3);
    RunNext(cfg, Genesis, h, 4);
  }

  /**
   Without "created at most once" both results can fail: here the indexes disagree and one author has two recorded
   votes. AgreementKeptIff and OneRecordedKeptIff say exactly which calls do that.
   */
  lemma RecreationBreaksAgreement(cfg: Config, description: Bytes, name: Bytes, who: AccountId)
    requires DescriptionFits(cfg, description) && NameFits(cfg, name)
    ensures var e := ElectionId(cfg, description);
            var c := CandidateId(cfg, name, e);
            var s := Run(cfg, Genesis, RecreationHistory(cfg, description, name, who));
            && !Agrees(s, e) && !OneRecorded(s, e)
            && ListAt(s.electionVotes, e) == [Vote(c, e, who)]
            && ListAt(s.candidateVotes, c) == [Vote(c, e, who), Vote(c, e, who)]
  {
    var e := ElectionId(cfg, description);
    var c := CandidateId(cfg, name, e);
    var v := Vote(c, e, who);
    var s := RecreationState(cfg, description, name, who);
    FilterSnoc(NamesElection(e), [], v);
    FilterSnoc(NamesElection(e), [v], v);
    FilterSnoc(NamesCandidate(c), [], v);
    assert [] + [v] == [v] && [v] + [v] == [v, v];
    assert |VotesNaming(ListAt(s.electionVotes, e), c)| == 1;
    assert |VotesFor(ListAt(s.candidateVotes, c), e)| == 2;
    assert !AgreeOn(s, e, c);
    assert RecordedAt(s, e, who, c, 0) && RecordedAt(s, e, who, c, 1);
  }
}
