/** Score bands: sorted once by their minimum, resolved by first match. */
module Bands {
  import opened Sequences

  datatype Band<L> = Band(level: L, minScore: int)

  /** Highest minimum first; equal minimums keep their configured order. */
  predicate Higher<L>(a: Band<L>, b: Band<L>) {
    a.minScore >= b.minScore
  }

  function SortedBands<L>(bands: seq<Band<L>>): (r: seq<Band<L>>)
    ensures multiset(r) == multiset(bands)
  {
    SortBy(Higher, bands)
  }

  /** First match from the top; the last band when none matches. */
  function FirstMatch<L>(sorted: seq<Band<L>>, score: int): Band<L>
    requires sorted != []
  {
    if score >= sorted[0].minScore || |sorted| == 1 then sorted[0] else FirstMatch(sorted[1..], score)
  }

  function BandOf<L>(bands: seq<Band<L>>, score: int): Band<L>
    requires bands != []
  {
    PermutationKeepsLength(SortedBands(bands), bands);
    FirstMatch(SortedBands(bands), score)
  }

  /** The chosen band's minimum is the greatest one the score reaches, or the least of all. */
  ghost predicate IsBandFor<L(!new)>(bands: seq<Band<L>>, score: int, b: Band<L>) {
    && b in bands
    && if b.minScore <= score then forall o :: o in bands && o.minScore <= score ==> o.minScore <= b.minScore
       else forall o :: o in bands ==> b.minScore <= o.minScore
  }

  lemma {:induction false} FirstMatchIsBand<L(!new)>(sorted: seq<Band<L>>, score: int)
    requires sorted != [] && OrderedBy(Higher, sorted)
    ensures IsBandFor(sorted, score, FirstMatch(sorted, score))
  {
    if score < sorted[0].minScore && |sorted| > 1 {
      FirstMatchIsBand(sorted[1..], score);
      assert sorted == [sorted[0]] + sorted[1..];
      assert FirstMatch(sorted, score) in sorted[1..];
      assert Higher(sorted[0], sorted[1]);
    } else {
      assert forall i :: 0 < i < |sorted| ==> Higher(sorted[0], sorted[i]);
    }
  }

  lemma BandIsBest<L(!new)>(bands: seq<Band<L>>, score: int)
    requires bands != []
    ensures IsBandFor(bands, score, BandOf(bands, score))
  {
    var sorted := SortedBands(bands);
    PermutationKeepsLength(sorted, bands);
    SortByIsOrdered(Higher<L>, bands);
    FirstMatchIsBand(sorted, score);
    PermutationKeepsMembers(sorted, bands);
  }

  lemma BandIsMonotone<L(!new)>(bands: seq<Band<L>>, low: int, high: int)
    requires bands != [] && low <= high
    ensures BandOf(bands, low).minScore <= BandOf(bands, high).minScore
  {
    BandIsBest(bands, low);
    BandIsBest(bands, high);
  }

  /** Bands of this minimum. */
  function WithMinimum<L(!new)>(minScore: int): Band<L> -> bool {
    (b: Band<L>) => b.minScore == minScore
  }

  lemma {:induction false} FirstMatchAt<L>(sorted: seq<Band<L>>, score: int) returns (i: nat)
    requires sorted != []
    ensures i < |sorted| && FirstMatch(sorted, score) == sorted[i]
    ensures (forall j :: 0 <= j < i ==> score < sorted[j].minScore)
    ensures sorted[i].minScore <= score || i == |sorted| - 1
  {
    if score >= sorted[0].minScore || |sorted| == 1 {
      i := 0;
    } else {
      var k := FirstMatchAt(sorted[1..], score);
      i := k + 1;
      assert forall j :: 0 < j < i ==> sorted[j] == sorted[1..][j - 1];
    }
  }

  /** Among bands of one minimum the first listed is chosen for a score that reaches it, and the last listed
      for a score that reaches none. */
  lemma TiesFollowTheListing<L(!new)>(bands: seq<Band<L>>, score: int, i: nat)
    requires i < |bands| && bands[i].minScore == BandOf(bands, score).minScore
    ensures bands[i].minScore <= score && (forall j :: 0 <= j < i ==> bands[j].minScore != bands[i].minScore)
        ==> BandOf(bands, score) == bands[i]
    ensures bands[i].minScore > score && (forall j :: i < j < |bands| ==> bands[j].minScore != bands[i].minScore)
        ==> BandOf(bands, score) == bands[i]
  {
    var sorted, p := SortedBands(bands), WithMinimum<L>(bands[i].minScore);
    PermutationKeepsLength(sorted, bands);
    SortIsStable(Higher<L>, p, bands);
    FilterEnds(p, bands, i);
    var k := FirstMatchAt(sorted, score);
    FilterEnds(p, sorted, k);
  }
}
