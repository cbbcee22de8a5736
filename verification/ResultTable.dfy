/** The table the client draws for one election: a row per candidate fetched for it, and a total row. */
module ResultTable {
  import opened Prelude
  import opened Elections
  import opened Indexes
  import opened Agreement

  /** One option of the candidate list: the storage key and the name shown. */
  datatype Choice = Choice(key: Hash, text: Bytes)
  datatype Row = Row(text: Bytes, votes: nat)
  datatype Table = Table(rows: seq<Row>, total: nat)

  /** The entries of the candidate map in the order the node returns them: any order, each key once. */
  ghost predicate Enumerates(entries: seq<(Hash, Candidate)>, m: map<Hash, Candidate>) {
    && (forall i, j :: 0 <= i < j < |entries| ==> entries[i].0 != entries[j].0)
    && (forall i :: 0 <= i < |entries| ==> entries[i].0 in m && m[entries[i].0] == entries[i].1)
    && (forall k :: k in m ==> exists i :: 0 <= i < |entries| && entries[i].0 == k)
  }

  /** Keeps the candidates whose election is the selected one. */
  function FetchCandidates(entries: seq<(Hash, Candidate)>, e: Hash): seq<Choice> {
    if entries == [] then []
    else
      var acc := FetchCandidates(entries[..|entries| - 1], e);
      var (id, desc) := entries[|entries| - 1];
      if desc.electionId == e then acc + [Choice(id, desc.candidateName)] else acc
  }

  /** The votes stored for the election; nothing at all for an unknown election. */
  function FetchVotes(s: Store, e: Hash): Option<seq<Vote>> {
    if e in s.electionVotes then Some(s.electionVotes[e]) else None
  }

  function Count(votes: Option<seq<Vote>>, key: Hash): nat {
    if votes.Some? then |VotesNaming(votes.value, key)| else 0
  }

  function Render(candidates: seq<Choice>, votes: Option<seq<Vote>>): Table {
    var rows := seq(|candidates|, i requires 0 <= i < |candidates| =>
                      Row(candidates[i].text, Count(votes, candidates[i].key)));
    Table(rows, if votes.Some? then |votes.value| else 0)
  }

  function ShownTable(s: Store, entries: seq<(Hash, Candidate)>, e: Hash): Table {
    Render(FetchCandidates(entries, e), FetchVotes(s, e))
  }

  function Counts(t: Table): seq<nat> {
    seq(|t.rows|, i requires 0 <= i < |t.rows| => t.rows[i].votes)
  }

  // ----- The options are exactly the stored candidates of the election -----

  ghost predicate DistinctKeys(options: seq<Choice>) {
    forall i, j :: 0 <= i < j < |options| ==> options[i].key != options[j].key
  }

  ghost predicate HasKey(options: seq<Choice>, k: Hash) {
    exists i :: 0 <= i < |options| && options[i].key == k
  }

  ghost predicate HasEntry(entries: seq<(Hash, Candidate)>, k: Hash, e: Hash) {
    exists i :: 0 <= i < |entries| && entries[i].0 == k && entries[i].1.electionId == e
  }

  lemma HasKeySnoc(options: seq<Choice>, x: Choice, k: Hash)
    ensures HasKey(options + [x], k) <==> HasKey(options, k) || x.key == k
  {
    assert (options + [x])[|options|] == x;
    if i :| 0 <= i < |options| && options[i].key == k {
      assert (options + [x])[i].key == k;
    }
  }

  lemma HasEntrySnoc(entries: seq<(Hash, Candidate)>, x: (Hash, Candidate), k: Hash, e: Hash)
    ensures HasEntry(entries + [x], k, e) <==> HasEntry(entries, k, e) || (x.0 == k && x.1.electionId == e)
  {
    assert (entries + [x])[|entries|] == x;
    if i :| 0 <= i < |entries| && entries[i].0 == k && entries[i].1.electionId == e {
      assert (entries + [x])[i].0 == k;
    }
  }

  lemma {:induction false} FetchedKey(entries: seq<(Hash, Candidate)>, e: Hash, k: Hash)
    ensures HasKey(FetchCandidates(entries, e), k) <==> HasEntry(entries, k, e)
  {
    if entries != [] {
      var init, last := entries[..|entries| - 1], entries[|entries| - 1];
      FetchedKey(init, e, k);
      HasKeySnoc(FetchCandidates(init, e), Choice(last.0, last.1.candidateName), k);
      HasEntrySnoc(init, last, k, e);
      assert entries == init + [last];
    }
  }

  lemma {:induction false} FetchedDistinct(entries: seq<(Hash, Candidate)>, e: Hash)
    requires forall i, j :: 0 <= i < j < |entries| ==> entries[i].0 != entries[j].0
    ensures DistinctKeys(FetchCandidates(entries, e))
  {
    if entries != [] {
      var init, last := entries[..|entries| - 1], entries[|entries| - 1];
      FetchedDistinct(init, e);
      FetchedKey(init, e, last.0);
      var acc := FetchCandidates(init, e);
      forall i | 0 <= i < |acc|
        ensures acc[i].key != last.0
      {
        assert acc[i].key == last.0 ==> HasKey(acc, last.0);
      }
    }
  }

  // ----- Counts against the total -----

  ghost function KeyCounts(options: seq<Choice>, votes: seq<Vote>): seq<nat> {
    seq(|options|, i requires 0 <= i < |options| => |VotesNaming(votes, options[i].key)|)
  }

  lemma SumOfCounts(options: seq<Choice>, votes: seq<Vote>)
    requires options != []
    ensures var init, last := options[..|options| - 1], options[|options| - 1];
            Sum(KeyCounts(options, votes)) == Sum(KeyCounts(init, votes)) + |VotesNaming(votes, last.key)|
  {
    assert KeyCounts(options, votes)[..|options| - 1] == KeyCounts(options[..|options| - 1], votes);
  }

  /** One more vote adds one to the sum if its candidate has a row, and nothing otherwise. */
  lemma {:induction false} SumAfterVote(options: seq<Choice>, votes: seq<Vote>, v: Vote)
    requires DistinctKeys(options)
    ensures Sum(KeyCounts(options, votes + [v]))
         == Sum(KeyCounts(options, votes)) + if HasKey(options, v.candidateId) then 1 else 0
  {
    if options != [] {
      var init, last := options[..|options| - 1], options[|options| - 1];
      SumAfterVote(init, votes, v);
      FilterSnoc(NamesCandidate(last.key), votes, v);
      SumOfCounts(options, votes + [v]);
      SumOfCounts(options, votes);
      HasKeySnoc(init, last, v.candidateId);
      assert options == init + [last];
      assert HasKey(init, v.candidateId) ==> last.key != v.candidateId;
    }
  }

  lemma {:induction false} SumOfNoVotes(options: seq<Choice>)
    ensures Sum(KeyCounts(options, [])) == 0
  {
    if options != [] {
      assert KeyCounts(options, [])[..|options| - 1] == KeyCounts(options[..|options| - 1], []);
      SumOfNoVotes(options[..|options| - 1]);
    }
  }

  lemma {:induction false} CountsAgainstTotal(options: seq<Choice>, votes: seq<Vote>)
    requires DistinctKeys(options)
    ensures Sum(KeyCounts(options, votes)) <= |votes|
    ensures Sum(KeyCounts(options, votes)) == |votes|
       <==> forall i :: 0 <= i < |votes| ==> HasKey(options, votes[i].candidateId)
  {
    if votes == [] {
      SumOfNoVotes(options);
    } else {
      var init, last := votes[..|votes| - 1], votes[|votes| - 1];
      assert votes == init + [last];
      CountsAgainstTotal(options, init);
      SumAfterVote(options, init, last);
    }
  }

  /** The candidate is stored under this id, for this election. */
  ghost predicate StoredFor(s: Store, c: Hash, e: Hash) {
    c in s.candidates && s.candidates[c].electionId == e
  }

  ghost predicate IsEntryOf(entry: (Hash, Candidate), o: Choice, e: Hash) {
    entry.0 == o.key && entry.1 == Candidate(o.text, e)
  }

  lemma {:induction false} FetchedEntry(entries: seq<(Hash, Candidate)>, e: Hash, i: nat)
    requires i < |FetchCandidates(entries, e)|
    ensures var o := FetchCandidates(entries, e)[i];
            exists j :: 0 <= j < |entries| && IsEntryOf(entries[j], o, e)
  {
    var init, last := entries[..|entries| - 1], entries[|entries| - 1];
    if i < |FetchCandidates(init, e)| {
      FetchedEntry(init, e, i);
      var o := FetchCandidates(init, e)[i];
      var j :| 0 <= j < |init| && IsEntryOf(init[j], o, e);
      assert IsEntryOf(entries[j], o, e);
    } else {
      assert IsEntryOf(entries[|init|], FetchCandidates(entries, e)[i], e);
    }
  }

  /** The options stand in the order in which the node returned their entries. */
  lemma {:induction false} OptionsKeepOrder(entries: seq<(Hash, Candidate)>, e: Hash, i: nat, j: nat)
    requires i < j < |FetchCandidates(entries, e)|
    ensures var options := FetchCandidates(entries, e);
            exists a, b :: 0 <= a < b < |entries|
                        && IsEntryOf(entries[a], options[i], e) && IsEntryOf(entries[b], options[j], e)
  {
    var init := entries[..|entries| - 1];
    var options := FetchCandidates(init, e);
    if j < |options| {
      OptionsKeepOrder(init, e, i, j);
      var a, b :| 0 <= a < b < |init| && IsEntryOf(init[a], options[i], e) && IsEntryOf(init[b], options[j], e);
      assert IsEntryOf(entries[a], options[i], e) && IsEntryOf(entries[b], options[j], e);
    } else {
      FetchedEntry(init, e, i);
      var a :| 0 <= a < |init| && IsEntryOf(init[a], options[i], e);
      assert IsEntryOf(entries[a], options[i], e);
      assert IsEntryOf(entries[|init|], FetchCandidates(entries, e)[j], e);
    }
  }

  /** Every row shows a stored candidate of the election, with its own name and its own count, and none is missing. */
  lemma RowsAreTheCandidates(s: Store, entries: seq<(Hash, Candidate)>, e: Hash)
    requires Enumerates(entries, s.candidates)
    ensures var options, t := FetchCandidates(entries, e), ShownTable(s, entries, e);
            && |t.rows| == |options| && DistinctKeys(options)
            && (forall c :: HasKey(options, c) <==> StoredFor(s, c, e))
            && (forall i :: 0 <= i < |t.rows| ==>
                  && StoredFor(s, options[i].key, e)
                  && t.rows[i] == Row(s.candidates[options[i].key].candidateName,
                                      |VotesNaming(ListAt(s.electionVotes, e), options[i].key)|))
  {
    var options, t := FetchCandidates(entries, e), ShownTable(s, entries, e);
    FetchedDistinct(entries, e);
    forall c
      ensures HasKey(options, c) <==> StoredFor(s, c, e)
    {
      FetchedKey(entries, e, c);
      if StoredFor(s, c, e) {
        var i :| 0 <= i < |entries| && entries[i].0 == c;
      }
    }
    forall i | 0 <= i < |t.rows|
      ensures StoredFor(s, options[i].key, e) && s.candidates[options[i].key].candidateName == t.rows[i].text
    {
      FetchedEntry(entries, e, i);
    }
  }

  /**
   The counts shown for an election add up to at most the total shown, and to exactly the total just when every vote
   names a candidate stored for that election. Holds for every storage and every order of the entries.
   */
  lemma TableAddsUp(s: Store, entries: seq<(Hash, Candidate)>, e: Hash)
    requires Enumerates(entries, s.candidates)
    ensures var t := ShownTable(s, entries, e);
            && Sum(Counts(t)) <= t.total == |ListAt(s.electionVotes, e)|
            && (Sum(Counts(t)) == t.total <==>
                  forall i :: 0 <= i < |ListAt(s.electionVotes, e)| ==>
                    StoredFor(s, ListAt(s.electionVotes, e)[i].candidateId, e))
  {
    var options, votes := FetchCandidates(entries, e), ListAt(s.electionVotes, e);
    RowsAreTheCandidates(s, entries, e);
    CountsAgainstTotal(options, votes);
    if e in s.electionVotes {
      assert Counts(ShownTable(s, entries, e)) == KeyCounts(options, votes);
    } else {
      SumOfNoVotes(options);
      assert Counts(ShownTable(s, entries, e)) == KeyCounts(options, []);
    }
  }

  /**
   In every history that creates e once, the count shown for a candidate is at least the number of votes for e that
   the candidate's own list has recorded.
   */
  lemma ShownCountCoversRecorded(cfg: Config, calls: seq<Call>, e: Hash, c: Hash)
    requires CreatedAtMostOnce(cfg, calls, e)
    ensures var s := Run(cfg, Genesis, calls);
            |VotesFor(ListAt(s.candidateVotes, c), e)| <= Count(FetchVotes(s, e), c)
  {
    IndexesAgree(cfg, calls, e);
    assert AgreeOn(Run(cfg, Genesis, calls), e, c);
  }
}
