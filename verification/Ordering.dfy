/** What the order of votes decides: an author's first vote in an election, and nothing else. */
module Ordering {
  import opened Prelude
  import opened Elections
  import opened Indexes
  import opened Answers

  ghost predicate AllVotes(calls: seq<Call>) {
    forall k :: 0 <= k < |calls| ==> calls[k].CreateVote?
  }

  /** The candidate that the author's first vote in e names, if the calls have one. */
  function FirstChoice(calls: seq<Call>, who: AccountId, e: Hash): Option<Hash> {
    if calls == [] then None
    else
      match FirstChoice(calls[..|calls| - 1], who, e)
      case Some(c) => Some(c)
      case None =>
        var last := calls[|calls| - 1];
        if CastsFor(last, who, e) then Some(last.candidateId) else None
  }

  /** After the calls before it, this one is its author's first vote in an election that took the author's vote in s. */
  ghost predicate IsFirstTaken(s: Store, before: seq<Call>, call: Call) {
    && call.CreateVote? && call.origin.Signed?
    && TakesVote(s, call.electionId, call.origin.who)
    && FirstChoice(before, call.origin.who, call.electionId) == None
  }

  /** The first vote of each author whom e would still take in s, in the order of the calls. */
  ghost function FirstVotes(s: Store, calls: seq<Call>, e: Hash): seq<Vote> {
    if calls == [] then []
    else
      var init, last := calls[..|calls| - 1], calls[|calls| - 1];
      FirstVotes(s, init, e)
        + if IsFirstTaken(s, init, last) && last.electionId == e then
            [Vote(last.candidateId, e, last.origin.who)]
          else []
  }

  /** The first votes that name c, in all elections, provided c is registered in s. */
  ghost function FirstVotesNaming(s: Store, calls: seq<Call>, c: Hash): seq<Vote> {
    if calls == [] then []
    else
      var init, last := calls[..|calls| - 1], calls[|calls| - 1];
      FirstVotesNaming(s, init, c)
        + if IsFirstTaken(s, init, last) && last.candidateId == c && c in s.candidateVotes then
            [Vote(c, last.electionId, last.origin.who)]
          else []
  }

  // ----- Any votes from any state -----

  ghost predicate SameSetting(s: Store, t: Store) {
    && t.elections == s.elections
    && t.electionVotes.Keys == s.electionVotes.Keys
    && t.candidateVotes.Keys == s.candidateVotes.Keys
  }

  lemma AfterOneVote(cfg: Config, s: Store, call: Call, who: AccountId, e: Hash)
    requires call.CreateVote?
    ensures var t := Step(cfg, s, call).store;
            SameSetting(s, t) && (TakesVote(t, e, who) <==> TakesVote(s, e, who) && !CastsFor(call, who, e))
  {
    VotedAfter(cfg, s, call, who, e);
  }

  /** Votes change nothing but who has voted, and an election still takes whoever is not among their authors. */
  lemma {:induction false} AfterVotes(cfg: Config, s: Store, calls: seq<Call>, who: AccountId, e: Hash)
    requires AllVotes(calls)
    ensures var t := Run(cfg, s, calls);
            SameSetting(s, t) && (TakesVote(t, e, who) <==> TakesVote(s, e, who) && FirstChoice(calls, who, e) == None)
  {
    if calls != [] {
      var init := calls[..|calls| - 1];
      AfterVotes(cfg, s, init, who, e);
      AfterOneVote(cfg, Run(cfg, s, init), calls[|calls| - 1], who, e);
    }
  }

  /** What one call of a list of votes adds, judged from the starting state and the calls before it. */
  lemma AddedByVote(cfg: Config, s: Store, before: seq<Call>, call: Call)
    requires AllVotes(before) && call.CreateVote?
    ensures var t := Run(cfg, s, before);
            && (Listed(t, call) != [] <==> IsFirstTaken(s, before, call))
            && (Recorded(t, call) != [] <==> IsFirstTaken(s, before, call) && call.candidateId in s.candidateVotes)
  {
    if call.origin.Signed? {
      AfterVotes(cfg, s, before, call.origin.who, call.electionId);
    }
  }

  lemma ElectionListGain(cfg: Config, s: Store, before: seq<Call>, call: Call, e: Hash)
    requires AllVotes(before) && call.CreateVote?
    ensures var t := Run(cfg, s, before);
            ListAt(Step(cfg, t, call).store.electionVotes, e)
            == ListAt(t.electionVotes, e)
               + if IsFirstTaken(s, before, call) && call.electionId == e then
                   [Vote(call.candidateId, e, call.origin.who)] else []
  {
    var t := Run(cfg, s, before);
    AddedByVote(cfg, s, before, call);
    ElectionListAfter(cfg, t, call, e);
    if Listed(t, call) != [] {
      RecordedOrUnregistered(t, call);
    }
  }

  lemma CandidateListGain(cfg: Config, s: Store, before: seq<Call>, call: Call, c: Hash)
    requires AllVotes(before) && call.CreateVote?
    ensures var t := Run(cfg, s, before);
            ListAt(Step(cfg, t, call).store.candidateVotes, c)
            == ListAt(t.candidateVotes, c)
               + if IsFirstTaken(s, before, call) && call.candidateId == c && c in s.candidateVotes then
                   [Vote(c, call.electionId, call.origin.who)] else []
  {
    var t := Run(cfg, s, before);
    AddedByVote(cfg, s, before, call);
    CandidateListAfter(cfg, t, call, c);
    if Listed(t, call) != [] {
      RecordedOrUnregistered(t, call);
    }
  }

  /** From any state, any votes: e's list gains, in order, the first vote of each author it would still take. */
  lemma {:induction false} ElectionListGains(cfg: Config, s: Store, calls: seq<Call>, e: Hash)
    requires AllVotes(calls)
    ensures ListAt(Run(cfg, s, calls).electionVotes, e) == ListAt(s.electionVotes, e) + FirstVotes(s, calls, e)
  {
    if calls == [] {
      assert ListAt(s.electionVotes, e) + [] == ListAt(s.electionVotes, e);
    } else {
      var init, last := calls[..|calls| - 1], calls[|calls| - 1];
      ElectionListGains(cfg, s, init, e);
      ElectionListGain(cfg, s, init, last, e);
    }
  }

  /** And c's list gains, in order, those of them that name c, if c is registered. */
  lemma {:induction false} CandidateListGains(cfg: Config, s: Store, calls: seq<Call>, c: Hash)
    requires AllVotes(calls)
    ensures ListAt(Run(cfg, s, calls).candidateVotes, c)
         == ListAt(s.candidateVotes, c) + FirstVotesNaming(s, calls, c)
  {
    if calls == [] {
      assert ListAt(s.candidateVotes, c) + [] == ListAt(s.candidateVotes, c);
    } else {
      var init, last := calls[..|calls| - 1], calls[|calls| - 1];
      CandidateListGains(cfg, s, init, c);
      CandidateListGain(cfg, s, init, last, c);
    }
  }

  /** What each call of a list of votes is answered, from the starting state and the calls before it. */
  lemma AnsweredByFirstVote(cfg: Config, s: Store, calls: seq<Call>, k: nat)
    requires AllVotes(calls) && k < |calls|
    ensures var call, r := calls[k], Answer(cfg, s, calls, k);
            r == if !call.origin.Signed? then Err(BadOrigin)
                 else if !IsFirstTaken(s, calls[..k], call) then Err(ElectionNotFound)
                 else if call.candidateId !in s.candidateVotes then Err(CandidateNotFound)
                 else Ok(VoteStored(call.electionId, call.candidateId))
  {
    if calls[k].origin.Signed? {
      AfterVotes(cfg, s, calls[..k], calls[k].origin.who, calls[k].electionId);
    }
  }

  // ----- Which votes the lists gain, whatever the order -----

  lemma CountAppend<T>(s: seq<T>, added: seq<T>, x: T)
    ensures multiset(s + added)[x] == multiset(s)[x] + multiset(added)[x]
  {
  }

  /** The vote is its author's first one in an election that would still take it. */
  ghost predicate IsFirstVote(s: Store, calls: seq<Call>, v: Vote) {
    TakesVote(s, v.electionId, v.author) && FirstChoice(calls, v.author, v.electionId) == Some(v.candidateId)
  }

  lemma {:induction false} FirstVotesCount(s: Store, calls: seq<Call>, e: Hash, v: Vote)
    ensures multiset(FirstVotes(s, calls, e))[v] == if v.electionId == e && IsFirstVote(s, calls, v) then 1 else 0
  {
    if calls != [] {
      var init, last := calls[..|calls| - 1], calls[|calls| - 1];
      FirstVotesCount(s, init, e, v);
      var added := if IsFirstTaken(s, init, last) && last.electionId == e then
                     [Vote(last.candidateId, e, last.origin.who)] else [];
      CountAppend(FirstVotes(s, init, e), added, v);
    }
  }

  lemma {:induction false} FirstVotesNamingCount(s: Store, calls: seq<Call>, c: Hash, v: Vote)
    ensures multiset(FirstVotesNaming(s, calls, c))[v]
         == if v.candidateId == c && c in s.candidateVotes && IsFirstVote(s, calls, v) then 1 else 0
  {
    if calls != [] {
      var init, last := calls[..|calls| - 1], calls[|calls| - 1];
      FirstVotesNamingCount(s, init, c, v);
      var added := if IsFirstTaken(s, init, last) && last.candidateId == c && c in s.candidateVotes then
                     [Vote(c, last.electionId, last.origin.who)] else [];
      CountAppend(FirstVotesNaming(s, init, c), added, v);
    }
  }

  /** How often each vote is in e's list after any votes. */
  lemma ElectionListCount(cfg: Config, s: Store, calls: seq<Call>, e: Hash, v: Vote)
    requires AllVotes(calls)
    ensures multiset(ListAt(Run(cfg, s, calls).electionVotes, e))[v]
         == multiset(ListAt(s.electionVotes, e))[v]
            + if v.electionId == e && IsFirstVote(s, calls, v) then 1 else 0
  {
    ElectionListGains(cfg, s, calls, e);
    FirstVotesCount(s, calls, e, v);
    CountAppend(ListAt(s.electionVotes, e), FirstVotes(s, calls, e), v);
  }

  /** How often each vote is in c's list after any votes. */
  lemma CandidateListCount(cfg: Config, s: Store, calls: seq<Call>, c: Hash, v: Vote)
    requires AllVotes(calls)
    ensures multiset(ListAt(Run(cfg, s, calls).candidateVotes, c))[v]
         == multiset(ListAt(s.candidateVotes, c))[v]
            + if v.candidateId == c && c in s.candidateVotes && IsFirstVote(s, calls, v) then 1 else 0
  {
    CandidateListGains(cfg, s, calls, c);
    FirstVotesNamingCount(s, calls, c, v);
    CountAppend(ListAt(s.candidateVotes, c), FirstVotesNaming(s, calls, c), v);
  }

  ghost predicate SameElectionLists(s: Store, t: Store) {
    forall e :: multiset(ListAt(s.electionVotes, e)) == multiset(ListAt(t.electionVotes, e))
  }

  ghost predicate SameCandidateLists(s: Store, t: Store) {
    forall c :: multiset(ListAt(s.candidateVotes, c)) == multiset(ListAt(t.candidateVotes, c))
  }

  /** Every author whom an election still takes chooses first alike in both lists of calls. */
  ghost predicate SameFirstChoices(s: Store, calls: seq<Call>, other: seq<Call>) {
    forall who, e :: TakesVote(s, e, who) ==> FirstChoice(calls, who, e) == FirstChoice(other, who, e)
  }

  lemma {:induction false} FirstChoicesDecide(cfg: Config, s: Store, calls: seq<Call>, other: seq<Call>)
    requires AllVotes(calls) && AllVotes(other) && SameFirstChoices(s, calls, other)
    ensures SameElectionLists(Run(cfg, s, calls), Run(cfg, s, other))
    ensures SameCandidateLists(Run(cfg, s, calls), Run(cfg, s, other))
  {
    var s1, s2 := Run(cfg, s, calls), Run(cfg, s, other);
    assert forall v :: IsFirstVote(s, calls, v) <==> IsFirstVote(s, other, v);
    forall e
      ensures multiset(ListAt(s1.electionVotes, e)) == multiset(ListAt(s2.electionVotes, e))
    {
      var l1, l2 := ListAt(s1.electionVotes, e), ListAt(s2.electionVotes, e);
      forall v
        ensures multiset(l1)[v] == multiset(l2)[v]
      {
        ElectionListCount(cfg, s, calls, e, v);
        ElectionListCount(cfg, s, other, e, v);
      }
    }
    forall c
      ensures multiset(ListAt(s1.candidateVotes, c)) == multiset(ListAt(s2.candidateVotes, c))
    {
      var l1, l2 := ListAt(s1.candidateVotes, c), ListAt(s2.candidateVotes, c);
      forall v
        ensures multiset(l1)[v] == multiset(l2)[v]
      {
        CandidateListCount(cfg, s, calls, c, v);
        CandidateListCount(cfg, s, other, c, v);
      }
    }
  }

  lemma ListsShowFirstChoice(cfg: Config, s: Store, calls: seq<Call>, other: seq<Call>, v: Vote)
    requires AllVotes(calls) && AllVotes(other) && TakesVote(s, v.electionId, v.author)
    requires var e := v.electionId;
             multiset(ListAt(Run(cfg, s, calls).electionVotes, e))
               == multiset(ListAt(Run(cfg, s, other).electionVotes, e))
    ensures FirstChoice(calls, v.author, v.electionId) == Some(v.candidateId)
       <==> FirstChoice(other, v.author, v.electionId) == Some(v.candidateId)
  {
    ElectionListCount(cfg, s, calls, v.electionId, v);
    ElectionListCount(cfg, s, other, v.electionId, v);
  }

  /**
   Exactly when two lists of votes, such as two orders of the same calls, leave the same votes in every list: when
   every author whom an election still takes names the same candidate first in both.
   */
  lemma {:induction false} OrderMattersForFirstVotes(cfg: Config, s: Store, calls: seq<Call>, other: seq<Call>)
    requires AllVotes(calls) && AllVotes(other)
    ensures SameElectionLists(Run(cfg, s, calls), Run(cfg, s, other))
         && SameCandidateLists(Run(cfg, s, calls), Run(cfg, s, other))
       <==> SameFirstChoices(s, calls, other)
  {
    if SameFirstChoices(s, calls, other) {
      FirstChoicesDecide(cfg, s, calls, other);
    }
    if SameElectionLists(Run(cfg, s, calls), Run(cfg, s, other)) {
      forall who, e | TakesVote(s, e, who)
        ensures FirstChoice(calls, who, e) == FirstChoice(other, who, e)
      {
        match FirstChoice(calls, who, e)
        case Some(c) => ListsShowFirstChoice(cfg, s, calls, other, Vote(c, e, who));
        case None =>
          if FirstChoice(other, who, e).Some? {
            ListsShowFirstChoice(cfg, s, calls, other, Vote(FirstChoice(other, who, e).value, e, who));
          }
      }
    }
  }

  lemma FirstChoiceOfTwo(a: Call, b: Call, who: AccountId, e: Hash)
    ensures FirstChoice([a, b], who, e)
         == if CastsFor(a, who, e) then Some(a.candidateId)
            else if CastsFor(b, who, e) then Some(b.candidateId) else None
  {
    assert [a, b][..1] == [a] && [a][..0] == [];
    assert FirstChoice([], who, e) == None;
    assert FirstChoice([a], who, e) == if CastsFor(a, who, e) then Some(a.candidateId) else None;
  }

  /**
   Two votes of one author in one election: their order is immaterial exactly if they name the same candidate, or the
   election is closed to this author anyway.
   */
  lemma {:induction false} SecondVoteLoses(cfg: Config, s: Store, who: AccountId, e: Hash, c1: Hash, c2: Hash)
    ensures var a, b := CreateVote(Signed(who), c1, e), CreateVote(Signed(who), c2, e);
            var ab, ba := Run(cfg, s, [a, b]), Run(cfg, s, [b, a]);
            SameElectionLists(ab, ba) && SameCandidateLists(ab, ba) <==> c1 == c2 || !TakesVote(s, e, who)
  {
    var a, b := CreateVote(Signed(who), c1, e), CreateVote(Signed(who), c2, e);
    OrderMattersForFirstVotes(cfg, s, [a, b], [b, a]);
    FirstChoiceOfTwo(a, b, who, e);
    FirstChoiceOfTwo(b, a, who, e);
    forall who', e' | !(who' == who && e' == e)
      ensures FirstChoice([a, b], who', e') == FirstChoice([b, a], who', e')
    {
      FirstChoiceOfTwo(a, b, who', e');
      FirstChoiceOfTwo(b, a, who', e');
    }
  }

  // ----- Votes of distinct voters -----

  predicate SameVoter(a: Call, b: Call)
    requires a.CreateVote? && b.CreateVote?
  {
    a.origin.Signed? && a.origin == b.origin && a.electionId == b.electionId
  }

  /** No author votes twice in the same election. */
  ghost predicate DistinctVoters(calls: seq<Call>)
    requires AllVotes(calls)
  {
    forall i, j :: 0 <= i < j < |calls| ==> !SameVoter(calls[i], calls[j])
  }

  /** The first choice is one of the votes cast, and there is one if any vote was cast. */
  lemma {:induction false} FirstChoiceIsCast(calls: seq<Call>, who: AccountId, e: Hash)
    ensures FirstChoice(calls, who, e).Some? ==> CreateVote(Signed(who), FirstChoice(calls, who, e).value, e) in calls
    ensures FirstChoice(calls, who, e) == None ==> forall k :: 0 <= k < |calls| ==> !CastsFor(calls[k], who, e)
  {
    if calls != [] {
      FirstChoiceIsCast(calls[..|calls| - 1], who, e);
    }
  }

  lemma {:induction false} NoFirstChoice(calls: seq<Call>, who: AccountId, e: Hash)
    requires forall k :: 0 <= k < |calls| ==> !CastsFor(calls[k], who, e)
    ensures FirstChoice(calls, who, e) == None
  {
    if calls != [] {
      NoFirstChoice(calls[..|calls| - 1], who, e);
    }
  }

  /** Among votes of distinct voters, each gets the answer it would get if it came alone. */
  lemma AnsweredAsIfAlone(cfg: Config, s: Store, calls: seq<Call>, k: nat)
    requires AllVotes(calls) && DistinctVoters(calls) && k < |calls|
    ensures Answer(cfg, s, calls, k) == Step(cfg, s, calls[k]).result
    ensures Listed(Run(cfg, s, calls[..k]), calls[k]) == Listed(s, calls[k])
    ensures Recorded(Run(cfg, s, calls[..k]), calls[k]) == Recorded(s, calls[k])
  {
    var call := calls[k];
    AnsweredByFirstVote(cfg, s, calls, k);
    if call.origin.Signed? {
      forall i | 0 <= i < k
        ensures !CastsFor(calls[..k][i], call.origin.who, call.electionId)
      {
        assert !SameVoter(calls[i], calls[k]);
      }
      NoFirstChoice(calls[..k], call.origin.who, call.electionId);
    }
  }

  /** Being votes of distinct voters is a property of the collection of calls, not of their order. */
  lemma PermutedVotersAreDistinct(calls: seq<Call>, permuted: seq<Call>)
    requires AllVotes(calls) && DistinctVoters(calls) && multiset(calls) == multiset(permuted)
    ensures AllVotes(permuted) && DistinctVoters(permuted)
  {
    forall k | 0 <= k < |permuted|
      ensures permuted[k] in calls
    {
      assert permuted[k] in multiset(permuted);
    }
    forall i, j | 0 <= i < j < |permuted|
      ensures !SameVoter(permuted[i], permuted[j])
    {
      if SameVoter(permuted[i], permuted[j]) {
        if permuted[i] == permuted[j] {
          RepeatedTwice(permuted, i, j);
          var a, b := TwiceRepeated(calls, permuted[i]);
        }
      }
    }
  }

  lemma SameCollectionSameFirstChoice(calls: seq<Call>, permuted: seq<Call>, who: AccountId, e: Hash)
    requires AllVotes(calls) && DistinctVoters(calls) && multiset(calls) == multiset(permuted)
    ensures FirstChoice(calls, who, e) == FirstChoice(permuted, who, e)
  {
    FirstChoiceIsCast(calls, who, e);
    FirstChoiceIsCast(permuted, who, e);
    forall call
      ensures call in calls <==> call in permuted
    {
      assert call in calls <==> call in multiset(calls);
      assert call in permuted <==> call in multiset(permuted);
    }
    if FirstChoice(calls, who, e).Some? && FirstChoice(permuted, who, e).Some? {
      var a := CreateVote(Signed(who), FirstChoice(calls, who, e).value, e);
      var b := CreateVote(Signed(who), FirstChoice(permuted, who, e).value, e);
      var i :| 0 <= i < |calls| && calls[i] == a;
      var j :| 0 <= j < |calls| && calls[j] == b;
      assert SameVoter(calls[i], calls[j]) && SameVoter(calls[j], calls[i]);
    }
  }

  /**
   From any state, two orders of the same votes of distinct voters give each call the same answer and leave the same
   votes in every list.
   */
  lemma {:induction false} OrderDoesNotMatter(cfg: Config, s: Store, calls: seq<Call>, permuted: seq<Call>)
    requires AllVotes(calls) && DistinctVoters(calls) && multiset(calls) == multiset(permuted)
    ensures forall i, j :: 0 <= i < |calls| && 0 <= j < |permuted| && calls[i] == permuted[j] ==>
              Answer(cfg, s, calls, i) == Answer(cfg, s, permuted, j)
    ensures SameElectionLists(Run(cfg, s, calls), Run(cfg, s, permuted))
    ensures SameCandidateLists(Run(cfg, s, calls), Run(cfg, s, permuted))
  {
    PermutedVotersAreDistinct(calls, permuted);
    forall i, j | 0 <= i < |calls| && 0 <= j < |permuted| && calls[i] == permuted[j]
      ensures Answer(cfg, s, calls, i) == Answer(cfg, s, permuted, j)
    {
      AnsweredAsIfAlone(cfg, s, calls, i);
      AnsweredAsIfAlone(cfg, s, permuted, j);
    }
    forall who, e | TakesVote(s, e, who)
      ensures FirstChoice(calls, who, e) == FirstChoice(permuted, who, e)
    {
      SameCollectionSameFirstChoice(calls, permuted, who, e);
    }
    FirstChoicesDecide(cfg, s, calls, permuted);
  }
}
