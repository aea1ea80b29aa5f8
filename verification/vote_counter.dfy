/**
 * The vote counter: a tally of votes per candidate, kept like a
 * `std::map` in ascending candidate order, and the choice of a winner,
 * with ties settled by a caller-supplied tie breaker.
 */
module VoteCounter {
  import opened Wrappers
  import opened Sequences

  type Candidate = string

  /** One map entry: a candidate and its number of votes. */
  datatype Entry = Entry(candidate: Candidate, votes: nat)

  datatype Tally = Tally(entries: seq<Entry>)

  /** Candidates strictly ascending, as the keys of a `std::map`. */
  ghost predicate Ordered(es: seq<Entry>)
  {
    forall i, j :: 0 <= i < j < |es| ==> LexLess(es[i].candidate, es[j].candidate)
  }

  /** The shape of the map: ordered keys, every count positive. */
  ghost predicate Valid(t: Tally)
  {
    && Ordered(t.entries)
    && (forall i :: 0 <= i < |t.entries| ==> t.entries[i].votes > 0)
  }

  function Empty(): (t: Tally)
    ensures Valid(t)
  {
    Tally([])
  }

  /** The votes cast for `c` so far. */
  function Count(es: seq<Entry>, c: Candidate): nat
  {
    if |es| == 0 then 0
    else if es[0].candidate == c then es[0].votes
    else Count(es[1..], c)
  }

  function Candidates(es: seq<Entry>): (r: seq<Candidate>)
    ensures |r| == |es|
    ensures forall i :: 0 <= i < |es| ==> r[i] == es[i].candidate
  {
    if |es| == 0 then [] else [es[0].candidate] + Candidates(es[1..])
  }

  /** A candidate absent from the map has no votes. */
  lemma {:induction false} CountAbsent(es: seq<Entry>, c: Candidate)
    requires c !in Candidates(es)
    ensures Count(es, c) == 0
  {
    if |es| > 0 {
      assert Candidates(es[1..]) == Candidates(es)[1..];
      CountAbsent(es[1..], c);
    }
  }

  /** In a map with distinct keys, the count of a stored candidate is its entry's. */
  lemma {:induction false} CountAt(es: seq<Entry>, i: nat)
    requires i < |es|
    requires forall a, b :: 0 <= a < b < |es| ==> es[a].candidate != es[b].candidate
    ensures Count(es, es[i].candidate) == es[i].votes
  {
    if i > 0 {
      CountAt(es[1..], i - 1);
    }
  }

  /** Ordered keys are distinct. */
  lemma OrderedDistinct(es: seq<Entry>)
    requires Ordered(es)
    ensures forall a, b :: 0 <= a < b < |es| ==> es[a].candidate != es[b].candidate
  {
    forall a, b | 0 <= a < b < |es| ensures es[a].candidate != es[b].candidate {
      LexLessIrreflexive(es[a].candidate);
    }
  }

  lemma OrderedTail(es: seq<Entry>)
    requires |es| > 0 && Ordered(es)
    ensures Ordered(es[1..])
    ensures forall u :: u in Candidates(es[1..]) ==> LexLess(es[0].candidate, u)
  {
    assert forall i :: 0 <= i < |es[1..]| ==> es[1..][i] == es[i + 1];
  }

  function Insert(es: seq<Entry>, c: Candidate): (r: seq<Entry>)
    requires Ordered(es)
    ensures Count(r, c) == Count(es, c) + 1
    ensures forall u :: u != c ==> Count(r, u) == Count(es, u)
    ensures forall u :: u in Candidates(r) <==> u == c || u in Candidates(es)
    ensures (forall i :: 0 <= i < |es| ==> es[i].votes > 0) ==> forall i :: 0 <= i < |r| ==> r[i].votes > 0
  {
    if |es| == 0 then [Entry(c, 1)]
    else if es[0].candidate == c then
      assert Candidates(es) == [c] + Candidates(es[1..]);
      [Entry(c, es[0].votes + 1)] + es[1..]
    else if LexLess(c, es[0].candidate) then
      BeforeHeadAbsent(es, c);
      CountAbsent(es, c);
      ConsFacts(Entry(c, 1), es);
      [Entry(c, 1)] + es
    else
      OrderedTail(es);
      var rest := Insert(es[1..], c);
      ConsFacts(es[0], es[1..]);
      assert [es[0]] + es[1..] == es;
      ConsFacts(es[0], rest);
      [es[0]] + rest
  }

  /** A candidate ordered before the first key is not in an ordered map. */
  lemma BeforeHeadAbsent(es: seq<Entry>, c: Candidate)
    requires |es| > 0 && Ordered(es) && LexLess(c, es[0].candidate)
    ensures c !in Candidates(es)
  {
    OrderedTail(es);
    LexLessIrreflexive(c);
    forall u | u in Candidates(es[1..]) ensures u != c {
      LexLessTransitive(c, es[0].candidate, u);
    }
    assert Candidates(es) == [es[0].candidate] + Candidates(es[1..]);
  }

  /** Counts and keys of a map with one entry put in front. */
  lemma ConsFacts(e: Entry, rest: seq<Entry>)
    ensures forall u :: Count([e] + rest, u) == if e.candidate == u then e.votes else Count(rest, u)
    ensures forall u :: u in Candidates([e] + rest) <==> u == e.candidate || u in Candidates(rest)
  {
    assert ([e] + rest)[1..] == rest;
    assert Candidates([e] + rest) == [e.candidate] + Candidates(rest);
  }

  lemma {:induction false} InsertKeepsOrder(es: seq<Entry>, c: Candidate)
    requires Ordered(es)
    ensures Ordered(Insert(es, c))
  {
    var r := Insert(es, c);
    if |es| == 0 {
    } else if es[0].candidate == c {
      assert forall i :: 0 <= i < |r| ==> r[i].candidate == es[i].candidate;
    } else if LexLess(c, es[0].candidate) {
      forall i, j | 0 <= i < j < |r| ensures LexLess(r[i].candidate, r[j].candidate) {
        if i == 0 && j > 1 {
          LexLessTransitive(c, es[0].candidate, es[j - 1].candidate);
        } else if i > 0 {
          assert r[i] == es[i - 1] && r[j] == es[j - 1];
        }
      }
    } else {
      LexLessTotal(c, es[0].candidate);
      OrderedTail(es);
      InsertKeepsOrder(es[1..], c);
      var rest := Insert(es[1..], c);
      forall i, j | 0 <= i < j < |r| ensures LexLess(r[i].candidate, r[j].candidate) {
        var x := rest[j - 1].candidate;
        assert r[j].candidate == x;
        if i > 0 {
          assert r[i] == rest[i - 1];
        } else {
          assert Candidates(rest)[j - 1] == x;
          assert x == c || x in Candidates(es[1..]);
        }
      }
    }
  }

  /**
   * `cast_vote`: one more vote for `c` (a first vote creates its entry);
   * every other candidate's count stays as it was.
   */
  function CastVote(t: Tally, c: Candidate): (r: Tally)
    requires Valid(t)
    ensures Valid(r)
    ensures Count(r.entries, c) == Count(t.entries, c) + 1
    ensures forall u :: u != c ==> Count(r.entries, u) == Count(t.entries, u)
  {
    InsertKeepsOrder(t.entries, c);
    Tally(Insert(t.entries, c))
  }

  /** The largest count in the map, or 0 for an empty map. */
  function MaxVotes(es: seq<Entry>): (m: nat)
    ensures forall i :: 0 <= i < |es| ==> es[i].votes <= m
    ensures |es| > 0 ==> exists i :: 0 <= i < |es| && es[i].votes == m
  {
    if |es| == 0 then 0
    else
      var m := MaxVotes(es[1..]);
      assert forall i :: 1 <= i < |es| ==> es[i] == es[1..][i - 1];
      if es[0].votes > m then es[0].votes else m
  }

  /** The candidates with exactly `n` votes, in map order. */
  function WithVotes(es: seq<Entry>, n: nat): (r: seq<Candidate>)
    ensures forall c :: c in r <==> exists i :: 0 <= i < |es| && es[i].candidate == c && es[i].votes == n
    ensures |r| <= |es|
  {
    if |es| == 0 then []
    else
      var rest := WithVotes(es[1..], n);
      assert forall i :: 1 <= i < |es| ==> es[i] == es[1..][i - 1];
      if es[0].votes == n then [es[0].candidate] + rest else rest
  }

  /**
   * The winner loop of `winner`: walking the map in order with the best
   * count so far and the candidates holding it; a strictly larger count
   * restarts the list, an equal one joins it.
   */
  function Scan(es: seq<Entry>, best: nat, leaders: seq<Candidate>): (r: (seq<Candidate>, nat))
  {
    if |es| == 0 then (leaders, best)
    else if es[0].votes > best then Scan(es[1..], es[0].votes, [es[0].candidate])
    else if es[0].votes == best then Scan(es[1..], best, leaders + [es[0].candidate])
    else Scan(es[1..], best, leaders)
  }

  lemma {:induction false} WithVotesAbove(es: seq<Entry>, n: nat)
    requires n > MaxVotes(es)
    ensures WithVotes(es, n) == []
  {
    if |es| > 0 {
      WithVotesAbove(es[1..], n);
    }
  }

  /** The loop ends with the largest count and exactly the candidates that hold it. */
  lemma {:induction false} ScanFindsLeaders(es: seq<Entry>, best: nat, leaders: seq<Candidate>)
    ensures Scan(es, best, leaders) ==
              if MaxVotes(es) > best then (WithVotes(es, MaxVotes(es)), MaxVotes(es))
              else if MaxVotes(es) == best then (leaders + WithVotes(es, best), best)
              else (leaders, best)
  {
    if |es| > 0 {
      var tail := es[1..];
      var m := MaxVotes(tail);
      var v := es[0].votes;
      var c := es[0].candidate;
      var top := MaxVotes(es);
      assert top == if v > m then v else m;
      assert WithVotes(es, v) == [c] + WithVotes(tail, v);
      assert v != m ==> WithVotes(es, m) == WithVotes(tail, m);
      assert v != best ==> WithVotes(es, best) == WithVotes(tail, best);
      if m < v {
        WithVotesAbove(tail, v);
        assert WithVotes(es, v) == [c];
      }
      if v > best {
        ScanFindsLeaders(tail, v, [c]);
      } else if v == best {
        ScanFindsLeaders(tail, best, leaders + [c]);
        assert leaders + [c] + WithVotes(tail, best) == leaders + ([c] + WithVotes(tail, best));
      } else {
        ScanFindsLeaders(tail, best, leaders);
      }
    } else {
      assert leaders + WithVotes(es, best) == leaders;
    }
  }

  /** The candidates tied on the largest count, in map order. */
  function Leaders(t: Tally): seq<Candidate>
  {
    WithVotes(t.entries, MaxVotes(t.entries))
  }

  /** `c` has votes and strictly more than anyone else. */
  ghost predicate SoleLeader(t: Tally, c: Candidate)
  {
    Count(t.entries, c) > 0 && forall u :: u != c ==> Count(t.entries, u) < Count(t.entries, c)
  }

  const NoVotesCast := "No votes cast."

  /**
   * `winner`: fails when no vote has been cast; returns the sole leader
   * when there is one without consulting the tie breaker; otherwise
   * returns whatever the tie breaker picks from the tied leaders, which it
   * receives in map order.
   */
  function Winner(t: Tally, tieBreaker: seq<Candidate> -> Candidate): (r: Result<Candidate, string>)
    requires Valid(t)
    ensures r.Failure? <==> |t.entries| == 0
    ensures r.Failure? ==> r.error == NoVotesCast
    ensures forall c :: SoleLeader(t, c) ==> r == Success(c)
    ensures r.Success? && (forall c :: !SoleLeader(t, c)) ==> r.value == tieBreaker(Leaders(t)) && |Leaders(t)| >= 2
  {
    if |t.entries| == 0 then Failure(NoVotesCast)
    else
      var (leaders, best) := Scan(t.entries, 0, []);
      ScanFindsLeaders(t.entries, 0, []);
      LeadersSole(t);
      if |leaders| == 1 then Success(leaders[0]) else Success(tieBreaker(leaders))
  }

  /** A single tied leader is exactly a sole leader. */
  lemma LeadersSole(t: Tally)
    requires Valid(t) && |t.entries| > 0
    ensures |Leaders(t)| >= 1
    ensures |Leaders(t)| == 1 ==> SoleLeader(t, Leaders(t)[0])
    ensures forall c :: SoleLeader(t, c) ==> Leaders(t) == [c]
  {
    var es := t.entries;
    var m := MaxVotes(es);
    var i0 :| 0 <= i0 < |es| && es[i0].votes == m;
    assert es[i0].candidate in Leaders(t);
    CountsWithinMax(t);
    if |Leaders(t)| == 1 {
      SingleLeaderIsSole(t);
    }
    forall c | SoleLeader(t, c) ensures Leaders(t) == [c] {
      SoleIsSingleLeader(t, c);
    }
  }

  /** Every count is at most the largest, and a stored candidate's count is its entry's. */
  lemma CountsWithinMax(t: Tally)
    requires Valid(t)
    ensures forall u :: Count(t.entries, u) <= MaxVotes(t.entries)
    ensures forall k :: 0 <= k < |t.entries| ==> Count(t.entries, t.entries[k].candidate) == t.entries[k].votes
  {
    var es := t.entries;
    OrderedDistinct(es);
    forall k | 0 <= k < |es| ensures Count(es, es[k].candidate) == es[k].votes {
      CountAt(es, k);
    }
    forall u ensures Count(es, u) <= MaxVotes(es) {
      if u in Candidates(es) {
        var k :| 0 <= k < |es| && Candidates(es)[k] == u;
        CountAt(es, k);
      } else {
        CountAbsent(es, u);
      }
    }
  }

  /** A candidate with votes owns an entry holding them. */
  lemma {:induction false} CountHasEntry(es: seq<Entry>, u: Candidate)
    requires Count(es, u) > 0
    ensures exists j :: 0 <= j < |es| && es[j].candidate == u && es[j].votes == Count(es, u)
  {
    if es[0].candidate != u {
      CountHasEntry(es[1..], u);
      var j :| 0 <= j < |es[1..]| && es[1..][j].candidate == u && es[1..][j].votes == Count(es[1..], u);
      assert es[j + 1] == es[1..][j];
    }
  }

  lemma SingleLeaderIsSole(t: Tally)
    requires Valid(t) && |Leaders(t)| == 1
    ensures SoleLeader(t, Leaders(t)[0])
  {
    var es := t.entries;
    var m := MaxVotes(es);
    var ls := Leaders(t);
    var x := ls[0];
    CountsWithinMax(t);
    assert x in ls;
    var k :| 0 <= k < |es| && es[k].candidate == x && es[k].votes == m;
    assert Count(es, x) == m > 0;
    forall u | u != x && Count(es, u) > 0 ensures Count(es, u) < m {
      CountHasEntry(es, u);
      var j :| 0 <= j < |es| && es[j].candidate == u && es[j].votes == Count(es, u);
      assert es[j].votes == m ==> u in ls;
    }
  }

  lemma SoleIsSingleLeader(t: Tally, c: Candidate)
    requires Valid(t) && SoleLeader(t, c)
    ensures Leaders(t) == [c]
  {
    var es := t.entries;
    var m := MaxVotes(es);
    CountsWithinMax(t);
    var i0 :| 0 <= i0 < |es| && es[i0].votes == m;
    assert Count(es, es[i0].candidate) == m;
    assert es[i0].candidate == c;
    forall k | 0 <= k < |es| && k != i0 ensures es[k].votes != m {
      OrderedDistinct(es);
    }
    OnlyOneWith(es, m, i0);
  }

  /** When exactly one entry has `n` votes, it alone is listed. */
  lemma {:induction false} OnlyOneWith(es: seq<Entry>, n: nat, i: nat)
    requires i < |es| && es[i].votes == n
    requires forall k :: 0 <= k < |es| && k != i ==> es[k].votes != n
    ensures WithVotes(es, n) == [es[i].candidate]
  {
    if i == 0 {
      NoneWith(es[1..], n);
    } else {
      OnlyOneWith(es[1..], n, i - 1);
    }
  }

  lemma {:induction false} NoneWith(es: seq<Entry>, n: nat)
    requires forall k :: 0 <= k < |es| ==> es[k].votes != n
    ensures WithVotes(es, n) == []
  {
    if |es| > 0 {
      NoneWith(es[1..], n);
    }
  }

  lemma {:induction false} LeadersDistinct(es: seq<Entry>, n: nat)
    requires forall a, b :: 0 <= a < b < |es| ==> es[a].candidate != es[b].candidate
    ensures Distinct(WithVotes(es, n))
  {
    if |es| > 0 {
      LeadersDistinct(es[1..], n);
      if es[0].votes == n {
        var rest := WithVotes(es[1..], n);
        assert es[0].candidate !in rest;
        DistinctCons(WithVotes(es, n));
      }
    }
  }

  function CastAll(t: Tally, votes: seq<Candidate>): (r: Tally)
    requires Valid(t)
    ensures Valid(r)
    decreases |votes|
  {
    if |votes| == 0 then t else CastAll(CastVote(t, votes[0]), votes[1..])
  }

  /** Two votes for "a" against one for "b" make "a" the winner. */
  lemma ClearWinner(tieBreaker: seq<Candidate> -> Candidate)
    ensures Winner(CastAll(Empty(), ["a", "b", "a"]), tieBreaker) == Success("a")
  {
    var t := CastAll(Empty(), ["a", "b", "a"]);
    assert t.entries == [Entry("a", 2), Entry("b", 1)] by {
      TwoVotes();
    }
    assert t.entries[1..] == [Entry("b", 1)];
  }

  /** Two votes each for "a" and "b" hand both, in order, to the tie breaker. */
  lemma TieGoesToTieBreaker(tieBreaker: seq<Candidate> -> Candidate)
    ensures Winner(CastAll(Empty(), ["a", "b", "a", "b"]), tieBreaker) == Success(tieBreaker(["a", "b"]))
  {
    var t := CastAll(Empty(), ["a", "b", "a", "b"]);
    assert t.entries == [Entry("a", 2), Entry("b", 2)] by {
      TwoVotes();
    }
    assert t.entries[1..] == [Entry("b", 2)];
    assert Scan(t.entries[1..], 2, ["a"]) == Scan([], 2, ["a"] + ["b"]);
    assert ["a"] + ["b"] == ["a", "b"];
  }

  /** The tallies after "a", "b", "a" and then "b" again. */
  lemma TwoVotes()
    ensures CastAll(Empty(), ["a", "b", "a"]).entries == [Entry("a", 2), Entry("b", 1)]
    ensures CastAll(Empty(), ["a", "b", "a", "b"]).entries == [Entry("a", 2), Entry("b", 2)]
  {
    assert LexLess("a", "b");
    var t1 := CastVote(Empty(), "a");
    assert t1.entries == [Entry("a", 1)];
    var t2 := CastVote(t1, "b");
    assert t2.entries == [Entry("a", 1)] + Insert([], "b");
    assert t2.entries == [Entry("a", 1), Entry("b", 1)];
    var t3 := CastVote(t2, "a");
    assert t3.entries == [Entry("a", 2), Entry("b", 1)];
    var t4 := CastVote(t3, "b");
    assert t4.entries == [Entry("a", 2)] + Insert([Entry("b", 1)], "b");
    assert t4.entries == [Entry("a", 2), Entry("b", 2)];
    var v := ["a", "b", "a", "b"];
    assert CastAll(Empty(), v) == CastAll(t1, v[1..]);
    assert CastAll(t1, v[1..]) == CastAll(t2, v[2..]);
    assert CastAll(t2, v[2..]) == CastAll(t3, v[3..]);
    assert CastAll(t3, v[3..]) == CastAll(t4, []);
    var w := ["a", "b", "a"];
    assert CastAll(Empty(), w) == CastAll(t1, w[1..]);
    assert CastAll(t1, w[1..]) == CastAll(t2, w[2..]);
    assert CastAll(t2, w[2..]) == CastAll(t3, []);
  }
}
