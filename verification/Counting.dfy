/**
 The two ways the system counts signatures: a voter is tried once, on its first relevant ballot, or
 a voter is counted on its first valid ballot.
 */
module Counting {
  import opened Stake

  /** One signature of a list: who it is from, whether it is about this subject, whether it verifies. */
  datatype Ballot = Ballot(voter: string, relevant: bool, valid: bool)

  // --- one try for each staked voter ---

  datatype Tally = Tally(counted: set<string>, attempted: set<string>, stake: nat)

  function FirstStep(vs: seq<Validator>, t: Tally, b: Ballot): Tally {
    if !b.relevant || b.voter in t.counted || StakeOf(vs, b.voter) == 0 || b.voter in t.attempted then t
    else if !b.valid then t.(attempted := t.attempted + {b.voter})
    else Tally(t.counted + {b.voter}, t.attempted + {b.voter}, t.stake + StakeOf(vs, b.voter))
  }

  function CountFirst(vs: seq<Validator>, ballots: seq<Ballot>): Tally {
    if ballots == [] then Tally({}, {}, 0)
    else FirstStep(vs, CountFirst(vs, ballots[..|ballots| - 1]), ballots[|ballots| - 1])
  }

  /** Ballot `i` is about the subject and from `voter`. */
  ghost predicate RelevantAt(ballots: seq<Ballot>, voter: string, i: int) {
    0 <= i < |ballots| && ballots[i].voter == voter && ballots[i].relevant
  }

  ghost predicate FirstRelevantAt(ballots: seq<Ballot>, voter: string, i: int) {
    RelevantAt(ballots, voter, i) && forall j :: 0 <= j < i ==> !RelevantAt(ballots, voter, j)
  }

  /** The voter's first relevant ballot verifies. */
  ghost predicate FirstVerifies(ballots: seq<Ballot>, voter: string) {
    exists i :: FirstRelevantAt(ballots, voter, i) && ballots[i].valid
  }

  ghost predicate Votes(ballots: seq<Ballot>, voter: string) {
    exists i :: RelevantAt(ballots, voter, i)
  }

  /** Exactly the staked voters whose first relevant ballot verifies are counted, each with its stake. */
  lemma {:induction false} CountFirstExact(vs: seq<Validator>, ballots: seq<Ballot>)
    ensures var t := CountFirst(vs, ballots);
            && (forall v :: v in t.attempted <==> StakeOf(vs, v) > 0 && Votes(ballots, v))
            && (forall v :: v in t.counted <==> StakeOf(vs, v) > 0 && FirstVerifies(ballots, v))
            && t.stake == Weight(vs, t.counted)
    decreases |ballots|
  {
    if ballots == [] {
      WeightEmpty(vs);
    } else {
      var n := |ballots| - 1;
      var before, last := ballots[..n], ballots[n];
      CountFirstExact(vs, before);
      forall v ensures Votes(ballots, v) <==> Votes(before, v) || (last.voter == v && last.relevant) {
        VotesExtend(ballots, v);
      }
      forall v
        ensures FirstVerifies(ballots, v) <==>
                FirstVerifies(before, v) || (!Votes(before, v) && last.voter == v && last.relevant && last.valid)
      {
        FirstVerifiesExtend(ballots, v);
      }
      var t := CountFirst(vs, before);
      if last.voter !in t.counted { WeightAdd(vs, t.counted, last.voter); }
    }
  }

  lemma VotesExtend(ballots: seq<Ballot>, v: string)
    requires ballots != []
    ensures var before, last := ballots[..|ballots| - 1], ballots[|ballots| - 1];
            Votes(ballots, v) <==> Votes(before, v) || (last.voter == v && last.relevant)
  {
    var n := |ballots| - 1;
    var before := ballots[..n];
    if Votes(before, v) {
      var i :| RelevantAt(before, v, i);
      assert RelevantAt(ballots, v, i);
    }
    if Votes(ballots, v) {
      var i :| RelevantAt(ballots, v, i);
      if i < n { assert RelevantAt(before, v, i); }
    }
    if ballots[n].voter == v && ballots[n].relevant { assert RelevantAt(ballots, v, n); }
  }

  lemma FirstVerifiesExtend(ballots: seq<Ballot>, v: string)
    requires ballots != []
    ensures var before, last := ballots[..|ballots| - 1], ballots[|ballots| - 1];
            FirstVerifies(ballots, v) <==>
            FirstVerifies(before, v) || (!Votes(before, v) && last.voter == v && last.relevant && last.valid)
  {
    var n := |ballots| - 1;
    var before := ballots[..n];
    assert forall j :: RelevantAt(before, v, j) <==> RelevantAt(ballots, v, j) && j < n;
    if FirstVerifies(ballots, v) {
      var i :| FirstRelevantAt(ballots, v, i) && ballots[i].valid;
      if i < n { assert FirstRelevantAt(before, v, i); }
    }
    if FirstVerifies(before, v) {
      var i :| FirstRelevantAt(before, v, i) && before[i].valid;
      assert FirstRelevantAt(ballots, v, i);
    }
    if !Votes(before, v) && ballots[n].voter == v && ballots[n].relevant && ballots[n].valid {
      assert FirstRelevantAt(ballots, v, n);
    }
  }

  // --- the first valid ballot of each member ---

  function CountAny(member: string -> bool, ballots: seq<Ballot>): set<string> {
    if ballots == [] then {}
    else
      var seen, b := CountAny(member, ballots[..|ballots| - 1]), ballots[|ballots| - 1];
      if b.relevant && member(b.voter) && b.voter !in seen && b.valid then seen + {b.voter} else seen
  }

  /** The voter has a relevant ballot that verifies. */
  ghost predicate SomeVerifies(ballots: seq<Ballot>, voter: string) {
    exists i :: RelevantAt(ballots, voter, i) && ballots[i].valid
  }

  /** Exactly the members with at least one valid ballot are counted, wherever it stands in the list. */
  lemma {:induction false} CountAnyExact(member: string -> bool, ballots: seq<Ballot>)
    ensures forall v :: v in CountAny(member, ballots) <==> member(v) && SomeVerifies(ballots, v)
    decreases |ballots|
  {
    if ballots == [] {
    } else {
      var n := |ballots| - 1;
      var before := ballots[..n];
      CountAnyExact(member, before);
      forall v
        ensures SomeVerifies(ballots, v) <==>
                SomeVerifies(before, v) || (ballots[n].voter == v && ballots[n].relevant && ballots[n].valid)
      {
        assert forall j :: RelevantAt(before, v, j) <==> RelevantAt(ballots, v, j) && j < n;
        if ballots[n].voter == v && ballots[n].relevant { assert RelevantAt(ballots, v, n); }
      }
    }
  }

  /** The second way of counting does not depend on the order of the list. */
  lemma CountAnyOrderIndependent(member: string -> bool, ballots: seq<Ballot>, ballots': seq<Ballot>)
    requires multiset(ballots) == multiset(ballots')
    ensures CountAny(member, ballots) == CountAny(member, ballots')
  {
    CountAnyExact(member, ballots);
    CountAnyExact(member, ballots');
    forall v ensures SomeVerifies(ballots, v) <==> SomeVerifies(ballots', v) {
      SomeVerifiesIn(ballots, ballots', v);
      SomeVerifiesIn(ballots', ballots, v);
    }
  }

  lemma SomeVerifiesIn(ballots: seq<Ballot>, ballots': seq<Ballot>, v: string)
    requires multiset(ballots) == multiset(ballots')
    ensures SomeVerifies(ballots, v) ==> SomeVerifies(ballots', v)
  {
    if SomeVerifies(ballots, v) {
      var i :| RelevantAt(ballots, v, i) && ballots[i].valid;
      assert ballots[i] in multiset(ballots');
      var j :| 0 <= j < |ballots'| && ballots'[j] == ballots[i];
      assert RelevantAt(ballots', v, j);
    }
  }

  /**
   Trying each voter once never counts more than the voters with a valid ballot, and counts all of
   them when no voter has two relevant ballots.
   */
  lemma FirstVersusAny(vs: seq<Validator>, ballots: seq<Ballot>)
    ensures var first, any := CountFirst(vs, ballots), CountAny(v => StakeOf(vs, v) > 0, ballots);
            && first.counted <= any && first.stake <= Weight(vs, any)
            && (AtMostOneEach(ballots) ==> first.counted == any && first.stake == Weight(vs, any))
  {
    var first, any := CountFirst(vs, ballots), CountAny(v => StakeOf(vs, v) > 0, ballots);
    CountFirstExact(vs, ballots);
    CountAnyExact(v => StakeOf(vs, v) > 0, ballots);
    WeightMonotone(vs, first.counted, any);
    if AtMostOneEach(ballots) {
      forall v | SomeVerifies(ballots, v)
        ensures FirstVerifies(ballots, v)
      {
        var i :| RelevantAt(ballots, v, i) && ballots[i].valid;
        assert FirstRelevantAt(ballots, v, i);
      }
      assert first.counted == any;
    }
  }

  ghost predicate AtMostOneEach(ballots: seq<Ballot>) {
    forall v, i, j :: RelevantAt(ballots, v, i) && RelevantAt(ballots, v, j) ==> i == j
  }
}
