/** Age binning as `pd.cut(ages, bins, labels=labels, right=False)` computes it:
    half-open bins `[bins[i], bins[i+1])`, and no label (NaN) outside
    `[bins[0], bins[|bins|-1])`, so the last edge itself is excluded. */
module Binning {
  import opened Wrappers

  /** The bin edges and labels of the dashboard's age groups. */
  const AgeBins: seq<int> := [18, 25, 35, 45, 55, 65, 75, 100]
  const AgeLabels: seq<string> := ["18-24", "25-34", "35-44", "45-54", "55-64", "65-74", "75+"]

  /** pandas refuses bin edges that do not increase. */
  predicate Increasing(bins: seq<int>)
  {
    forall i, j :: 0 <= i < j < |bins| ==> bins[i] < bins[j]
  }

  /** `pd.cut(x, bins, labels=labels, right=False)` for one value `x`. pandas needs at
      least two increasing edges and one label fewer than edges, and raises otherwise. */
  function Cut<L>(x: int, bins: seq<int>, labels: seq<L>): (r: Option<L>)
    requires 2 <= |bins| && |labels| == |bins| - 1 && Increasing(bins)
    ensures r.Some? <==> bins[0] <= x < bins[|bins| - 1]
    ensures forall i :: 0 <= i < |labels| && bins[i] <= x < bins[i + 1] ==> r == Some(labels[i])
    ensures r.Some? ==> exists i :: 0 <= i < |labels| && bins[i] <= x < bins[i + 1] && r.value == labels[i]
    decreases |bins|
  {
    if bins[0] <= x < bins[1] then Some(labels[0])
    else if |bins| == 2 then None
    else
      var r := Cut(x, bins[1..], labels[1..]);
      assert forall i :: 0 < i < |labels| ==> bins[i] == bins[1..][i - 1] && bins[i + 1] == bins[1..][i] && labels[i] == labels[1..][i - 1];
      r
  }

  /** A value under a bin's upper edge is under every later edge. */
  lemma BelowLaterEdges(bins: seq<int>, i: nat, x: int)
    requires Increasing(bins) && i + 1 < |bins| && x < bins[i + 1]
    ensures forall j :: i < j < |bins| ==> x < bins[j]
  {
  }

  /** Two bins of increasing edges never share a value. */
  lemma BinsDisjoint(bins: seq<int>, i: nat, j: nat, x: int)
    requires Increasing(bins) && i + 1 < |bins| && j + 1 < |bins|
    requires bins[i] <= x < bins[i + 1] && bins[j] <= x < bins[j + 1]
    ensures i == j
  {
    BelowLaterEdges(bins, i, x);
    BelowLaterEdges(bins, j, x);
  }

  /** Every value in `[bins[0], bins[|bins|-1])` lies in some bin. */
  lemma {:induction false} BinsCover(bins: seq<int>, x: int) returns (i: nat)
    requires 2 <= |bins| && bins[0] <= x < bins[|bins| - 1]
    ensures i < |bins| - 1 && bins[i] <= x < bins[i + 1]
    decreases |bins|
  {
    if x < bins[1] {
      i := 0;
    } else {
      var k := BinsCover(bins[1..], x);
      i := k + 1;
    }
  }

  /** Increasing edges partition `[bins[0], bins[|bins|-1])`: each value there lies in
      exactly one bin. */
  lemma BinsPartition(bins: seq<int>, x: int)
    requires 2 <= |bins| && Increasing(bins) && bins[0] <= x < bins[|bins| - 1]
    ensures exists i :: 0 <= i < |bins| - 1 && bins[i] <= x < bins[i + 1]
    ensures forall i, j :: (0 <= i < |bins| - 1 && 0 <= j < |bins| - 1 && bins[i] <= x < bins[i + 1] &&
                            bins[j] <= x < bins[j + 1]) ==> i == j
  {
    var k := BinsCover(bins, x);
    forall i: nat, j: nat | i < |bins| - 1 && j < |bins| - 1 && bins[i] <= x < bins[i + 1] &&
                            bins[j] <= x < bins[j + 1]
      ensures i == j
    {
      BinsDisjoint(bins, i, j, x);
    }
  }

  /** A bin earlier in the list holds only smaller values than a later one. */
  lemma BinsOrdered(bins: seq<int>, i: nat, j: nat, x: int, y: int)
    requires Increasing(bins) && i < j && j + 1 < |bins|
    requires bins[i] <= x < bins[i + 1] && bins[j] <= y < bins[j + 1]
    ensures x < y
  {
    assert bins[i + 1] <= bins[j];
  }

  lemma AgeBinsIncreasing()
    ensures Increasing(AgeBins)
  {
  }

  lemma AgeLabelsDistinct()
    ensures forall i, j :: 0 <= i < j < |AgeLabels| ==> AgeLabels[i] != AgeLabels[j]
  {
  }

  /** The Age_Group of one citizen. */
  function AgeGroup(age: int): (r: Option<string>)
    ensures r.Some? <==> 18 <= age < 100
    ensures r.Some? ==> r.value in AgeLabels
  {
    AgeBinsIncreasing();
    Cut(age, AgeBins, AgeLabels)
  }

  /** An age gets label i exactly when it lies in `[AgeBins[i], AgeBins[i+1])`. */
  lemma AgeGroupBins(age: int, i: nat)
    requires i < |AgeLabels|
    ensures AgeGroup(age) == Some(AgeLabels[i]) <==> AgeBins[i] <= age < AgeBins[i + 1]
  {
    AgeBinsIncreasing();
    AgeLabelsDistinct();
    if AgeGroup(age) == Some(AgeLabels[i]) {
      var j :| 0 <= j < |AgeLabels| && AgeBins[j] <= age < AgeBins[j + 1] && AgeGroup(age).value == AgeLabels[j];
      assert i == j;
    }
  }

  /** The seven bins partition `[18, 100)`: every age there lies in exactly one bin. */
  lemma AgeBinsPartition(age: int)
    requires 18 <= age < 100
    ensures exists i :: 0 <= i < |AgeLabels| && AgeBins[i] <= age < AgeBins[i + 1]
    ensures forall i, j :: (0 <= i < |AgeLabels| && 0 <= j < |AgeLabels| && AgeBins[i] <= age < AgeBins[i + 1] &&
                            AgeBins[j] <= age < AgeBins[j + 1]) ==> i == j
  {
    AgeBinsIncreasing();
    BinsPartition(AgeBins, age);
  }

  /** Label order is bin order: an older citizen never gets an earlier label. */
  lemma AgeGroupMonotone(a: int, b: int, i: nat, j: nat)
    requires i < |AgeLabels| && j < |AgeLabels| && a <= b
    requires AgeGroup(a) == Some(AgeLabels[i]) && AgeGroup(b) == Some(AgeLabels[j])
    ensures i <= j
  {
    AgeGroupBins(a, i);
    AgeGroupBins(b, j);
    AgeBinsIncreasing();
    if j < i {
      BinsOrdered(AgeBins, j, i, b, a);
    }
  }

  /** Boundary ages fall into the higher bin; ages under 18, or 100 and over, get none. */
  lemma AgeGroupBoundaries()
    ensures AgeGroup(17) == None && AgeGroup(18) == Some("18-24")
    ensures AgeGroup(24) == Some("18-24") && AgeGroup(25) == Some("25-34")
    ensures AgeGroup(74) == Some("65-74") && AgeGroup(75) == Some("75+")
    ensures AgeGroup(99) == Some("75+") && AgeGroup(100) == None
  {
    AgeGroupBins(18, 0);
    AgeGroupBins(24, 0);
    AgeGroupBins(25, 1);
    AgeGroupBins(74, 5);
    AgeGroupBins(75, 6);
    AgeGroupBins(99, 6);
  }
}
