/**
 * Greedy non-maximum suppression: the list is sorted by falling score, and a box is
 * dropped when a box kept before it overlaps it more than the rule allows. The loops
 * work in place on flags; what they leave is described as a kernel, a choice of boxes
 * in which each is kept exactly if no kept box before it overlaps it too much.
 */
module Nms {
  import opened Prelude
  import opened Boxes

  /** The arguments besides the list. */
  datatype Rule = Rule(threshold: real, checkClassId: bool)

  predicate Overlaps(r: Rule, a: Box, b: Box) {
    && (r.checkClassId ==> a.classId == b.classId)
    && Iou(a, b).Some?
    && Iou(a, b).value > r.threshold
  }

  lemma OverlapsIsSymmetric(r: Rule, a: Box, b: Box)
    ensures Overlaps(r, a, b) <==> Overlaps(r, b, a)
  {
    IouLaws(a, b);
  }

  /** `both` is more than the given share of `all`. */
  ghost predicate MoreThan(share: real, both: nat, all: nat) {
    both as real > share * all as real
  }

  lemma ShareAbove(score: Option<real>, both: nat, all: nat, threshold: real)
    requires IsShare(score, both, all) && both <= all && (all == 0 ==> threshold >= 0.0)
    ensures score.Some? && score.value > threshold <==> MoreThan(threshold, both, all)
  {
    if score.Some? && all > 0 {
      var d := all as real;
      SameSign(score.value - threshold, d);
      assert (score.value - threshold) * d == score.value * d - threshold * d;
    }
  }

  /**
   * Two boxes overlap too much if and only if they need not agree in class, or do, and
   * more than the threshold's share of the pixels that either covers is common to both.
   */
  lemma OverlapsExactly(r: Rule, a: Box, b: Box)
    requires r.threshold >= 0.0 || Pixels(a) + Pixels(b) != {}
    ensures Overlaps(r, a, b) <==>
            && (!r.checkClassId || a.classId == b.classId)
            && MoreThan(r.threshold, |Pixels(a) * Pixels(b)|, |Pixels(a) + Pixels(b)|)
  {
    var both, all := Counts(a, b);
    ShareAbove(Iou(a, b), both, all, r.threshold);
  }

  ghost predicate Descending(s: seq<Box>) {
    forall i, j :: 0 <= i < j < |s| ==> s[i].score >= s[j].score
  }

  ghost predicate DistinctScores(s: seq<Box>) {
    forall i, j :: 0 <= i < j < |s| ==> s[i].score != s[j].score
  }

  // ---------------------------------------------------------------------------
  // The greedy kernel

  /** Some kept box among the first `upTo` comes before box `j` and overlaps it. */
  ghost predicate Hit(r: Rule, s: seq<Box>, kept: seq<bool>, j: nat, upTo: nat)
    requires j < |s| && |s| <= |kept|
  {
    exists i :: 0 <= i < upTo && i < j && kept[i] && Overlaps(r, s[i], s[j])
  }

  /** A box is kept if and only if no kept box before it overlaps it. */
  ghost predicate IsKernel(r: Rule, s: seq<Box>, kept: seq<bool>) {
    |kept| == |s| && forall j :: 0 <= j < |s| ==> (kept[j] <==> !Hit(r, s, kept, j, j))
  }

  ghost function Kernel(r: Rule, s: seq<Box>): (kept: seq<bool>)
    ensures IsKernel(r, s, kept)
  {
    if |s| == 0 then []
    else
      var init := Kernel(r, s[..|s| - 1]);
      var all := init + [false];
      var kept := init + [!Hit(r, s, all, |s| - 1, |s| - 1)];
      assert forall j :: 0 <= j < |s| - 1 ==> (Hit(r, s, kept, j, j) <==> Hit(r, s[..|s| - 1], init, j, j));
      kept
  }

  ghost predicate AgreeBelow(kept: seq<bool>, other: seq<bool>, n: nat)
    requires n <= |kept| && n <= |other|
  {
    forall i :: 0 <= i < n ==> kept[i] == other[i]
  }

  lemma SameHits(r: Rule, s: seq<Box>, kept: seq<bool>, other: seq<bool>, j: nat)
    requires j < |s| == |kept| == |other| && AgreeBelow(kept, other, j)
    ensures Hit(r, s, kept, j, j) ==> Hit(r, s, other, j, j)
  {
    if Hit(r, s, kept, j, j) {
      var i :| 0 <= i < j && kept[i] && Overlaps(r, s[i], s[j]);
      assert other[i];
    }
  }

  lemma {:induction false} KernelIsUnique(r: Rule, s: seq<Box>, kept: seq<bool>, n: nat)
    requires IsKernel(r, s, kept) && n <= |s|
    ensures AgreeBelow(kept, Kernel(r, s), n)
    ensures n == |s| ==> kept == Kernel(r, s)
  {
    if n > 0 {
      KernelIsUnique(r, s, kept, n - 1);
      KernelStep(r, s, kept, Kernel(r, s), n - 1);
    }
  }

  lemma KernelStep(r: Rule, s: seq<Box>, kept: seq<bool>, other: seq<bool>, j: nat)
    requires IsKernel(r, s, kept) && IsKernel(r, s, other) && j < |s| && AgreeBelow(kept, other, j)
    ensures kept[j] == other[j]
  {
    SameHits(r, s, kept, other, j);
    SameHits(r, s, other, kept, j);
  }

  ghost predicate HitStepped(r: Rule, s: seq<Box>, kept: seq<bool>, j: nat, high: nat)
    requires j < |s| <= |kept| && high < |s|
  {
    Hit(r, s, kept, j, high + 1) <==>
    Hit(r, s, kept, j, high) || (high < j && kept[high] && Overlaps(r, s[high], s[j]))
  }

  /** The walk reaches box `high`: what it merges is what box `high` overlaps, if kept. */
  lemma HitStep(r: Rule, s: seq<Box>, kept: seq<bool>, j: nat, high: nat)
    requires j < |s| <= |kept| && high < |s|
    ensures HitStepped(r, s, kept, j, high)
  {
    if Hit(r, s, kept, j, high + 1) {
      var i :| 0 <= i < high + 1 && i < j && kept[i] && Overlaps(r, s[i], s[j]);
      assert i == high || i < high;
    }
  }

  function Selected(s: seq<Box>, kept: seq<bool>): seq<Box>
    requires |s| == |kept|
  {
    if |s| == 0 then []
    else
      var n := |s| - 1;
      Selected(s[..n], kept[..n]) + (if kept[n] then [s[n]] else [])
  }

  lemma {:induction false} SelectedAreMembers(s: seq<Box>, kept: seq<bool>)
    requires |s| == |kept|
    ensures multiset(Selected(s, kept)) <= multiset(s)
  {
    if |s| > 0 {
      var n := |s| - 1;
      var init := Selected(s[..n], kept[..n]);
      SelectedAreMembers(s[..n], kept[..n]);
      assert s == s[..n] + [s[n]];
      assert multiset(s) == multiset(s[..n]) + multiset{s[n]};
      assert multiset(init + [s[n]]) == multiset(init) + multiset{s[n]};
      assert Selected(s, kept) == if kept[n] then init + [s[n]] else init;
    }
  }

  lemma SelectStep(s: seq<Box>, kept: seq<bool>, n: nat)
    requires n < |s| == |kept|
    ensures Selected(s[..n + 1], kept[..n + 1]) == Selected(s[..n], kept[..n]) + (if kept[n] then [s[n]] else [])
  {
    assert s[..n + 1][..n] == s[..n] && kept[..n + 1][..n] == kept[..n];
  }

  /** The output list when the walk has come to box `n`. */
  ghost function Output(nmsList: seq<Box>, s: seq<Box>, kept: seq<bool>, n: nat): seq<Box>
    requires n <= |s| == |kept|
  {
    nmsList + Selected(s[..n], kept[..n])
  }

  lemma OutputStep(nmsList: seq<Box>, s: seq<Box>, kept: seq<bool>, n: nat)
    requires n < |s| == |kept|
    ensures Output(nmsList, s, kept, n + 1)
         == if kept[n] then Output(nmsList, s, kept, n) + [s[n]] else Output(nmsList, s, kept, n)
  {
    SelectStep(s, kept, n);
  }

  lemma OutputEnds(nmsList: seq<Box>, s: seq<Box>, kept: seq<bool>)
    requires |s| == |kept|
    ensures Output(nmsList, s, kept, 0) == nmsList
    ensures Output(nmsList, s, kept, |s|) == nmsList + Selected(s, kept)
  {
    assert s[..|s|] == s && kept[..|s|] == kept;
  }

  /** What suppression leaves of a sorted list. */
  ghost function Survivors(r: Rule, sorted: seq<Box>): seq<Box> {
    Selected(sorted, Kernel(r, sorted))
  }

  /** `out` may come out of suppressing `list`; ties leave the sort free to choose. */
  ghost predicate Outcome(r: Rule, list: seq<Box>, sorted: seq<Box>, out: seq<Box>) {
    Descending(sorted) && multiset(sorted) == multiset(list) && out == Survivors(r, sorted)
  }

  // ---------------------------------------------------------------------------
  // The program

  method SortByScore(list: array<Box>)
    modifies list
    ensures Descending(list[..])
    ensures multiset(list[..]) == multiset(old(list[..]))
  {
    for i := 0 to list.Length
      invariant forall p, q :: 0 <= p < i && p < q < list.Length ==> list[p].score >= list[q].score
      invariant multiset(list[..]) == multiset(old(list[..]))
    {
      var m := i;
      for j := i + 1 to list.Length
        invariant i <= m < list.Length
        invariant forall q :: i <= q < j ==> list[m].score >= list[q].score
      {
        if list[j].score > list[m].score {
          m := j;
        }
      }
      list[i], list[m] := list[m], list[i];
    }
  }

  /** The merge flags when the walk has come to box `high`. */
  ghost predicate Merged(r: Rule, s: seq<Box>, kept: seq<bool>, flags: seq<bool>, high: nat) {
    |s| == |kept| == |flags| && forall j :: 0 <= j < |s| ==> (flags[j] <==> Hit(r, s, kept, j, high))
  }

  lemma MergeStep(r: Rule, s: seq<Box>, kept: seq<bool>, flags: seq<bool>, flags': seq<bool>, high: nat)
    requires IsKernel(r, s, kept) && Merged(r, s, kept, flags, high) && high < |s| == |flags'|
    requires if flags[high] then flags' == flags
             else forall j :: 0 <= j < |s| ==>
                    (flags'[j] <==> flags[j] || (high < j && Overlaps(r, s[high], s[j])))
    ensures Merged(r, s, kept, flags', high + 1)
    ensures flags[high] <==> !kept[high]
  {
    assert flags[high] <==> Hit(r, s, kept, high, high);
    forall j | 0 <= j < |s| ensures flags'[j] <==> Hit(r, s, kept, j, high + 1) {
      HitStep(r, s, kept, j, high);
    }
  }

  /** The inner loop: merge every later box that box `high` overlaps. */
  method MergeOverlapped(r: Rule, list: array<Box>, isMerged: array<bool>, high: nat) returns (candidates: seq<Box>)
    requires isMerged.Length == list.Length && high < list.Length
    modifies isMerged
    ensures candidates != [] && candidates[0] == list[high]
    ensures forall j :: 0 <= j < list.Length ==>
              (isMerged[j] <==> old(isMerged[j]) || (high < j && Overlaps(r, list[high], list[j])))
  {
    candidates := [list[high]];
    for low := high + 1 to list.Length
      invariant candidates != [] && candidates[0] == list[high]
      invariant forall j :: 0 <= j < list.Length ==>
                  (isMerged[j] <==> old(isMerged[j]) || (high < j < low && Overlaps(r, list[high], list[j])))
    {
      if isMerged[low] {
        continue;
      }
      if r.checkClassId && list[high].classId != list[low].classId {
        continue;
      }
      var iou := Iou(list[high], list[low]);
      if iou.Some? && iou.value > r.threshold {
        candidates := candidates + [list[low]];
        isMerged[low] := true;
      }
    }
  }

  method Nms(r: Rule, list: array<Box>, nmsList: seq<Box>) returns (out: seq<Box>)
    modifies list
    ensures Descending(list[..])
    ensures multiset(list[..]) == multiset(old(list[..]))
    ensures out == nmsList + Survivors(r, list[..])
  {
    SortByScore(list);
    out := nmsList;
    ghost var s := list[..];
    ghost var kernel := Kernel(r, s);
    var isMerged := new bool[list.Length](_ => false);
    OutputEnds(nmsList, s, kernel);
    for high := 0 to list.Length
      modifies isMerged
      invariant list[..] == s
      invariant out == Output(nmsList, s, kernel, high)
      invariant Merged(r, s, kernel, isMerged[..], high)
    {
      ghost var flags := isMerged[..];
      OutputStep(nmsList, s, kernel, high);
      if isMerged[high] {
        MergeStep(r, s, kernel, flags, flags, high);
        continue;
      }
      var candidates := MergeOverlapped(r, list, isMerged, high);
      MergeStep(r, s, kernel, flags, isMerged[..], high);
      out := out + [candidates[0]];
    }
  }

  // ---------------------------------------------------------------------------
  // What the survivors are

  /** Where the survivors at `a < b` stood in the sorted list. */
  lemma {:induction false} SelectedFrom(s: seq<Box>, kept: seq<bool>, a: nat, b: nat) returns (i: nat, j: nat)
    requires |s| == |kept| && a < b < |Selected(s, kept)|
    ensures i < j < |s| && kept[i] && kept[j]
    ensures Selected(s, kept)[a] == s[i] && Selected(s, kept)[b] == s[j]
  {
    var n := |s| - 1;
    var init := Selected(s[..n], kept[..n]);
    if b < |init| {
      i, j := SelectedFrom(s[..n], kept[..n], a, b);
    } else {
      i := SelectedOne(s[..n], kept[..n], a);
      j := n;
    }
  }

  lemma {:induction false} SelectedOne(s: seq<Box>, kept: seq<bool>, a: nat) returns (i: nat)
    requires |s| == |kept| && a < |Selected(s, kept)|
    ensures i < |s| && kept[i] && Selected(s, kept)[a] == s[i]
  {
    var n := |s| - 1;
    if a < |Selected(s[..n], kept[..n])| {
      i := SelectedOne(s[..n], kept[..n], a);
    } else {
      i := n;
    }
  }

  lemma {:induction false} KeptIsSelected(s: seq<Box>, kept: seq<bool>, i: nat) returns (a: nat)
    requires |s| == |kept| && i < |s| && kept[i]
    ensures a < |Selected(s, kept)| && Selected(s, kept)[a] == s[i]
  {
    var n := |s| - 1;
    if i < n {
      a := KeptIsSelected(s[..n], kept[..n], i);
    } else {
      a := |Selected(s[..n], kept[..n])|;
    }
  }

  ghost predicate Apart(r: Rule, s: seq<Box>) {
    forall a, b :: 0 <= a < b < |s| ==> !Overlaps(r, s[a], s[b])
  }

  /** A kept box of at least the same score stands for this one. */
  ghost predicate Covered(r: Rule, out: seq<Box>, box: Box) {
    exists a :: 0 <= a < |out| && out[a].score >= box.score && Overlaps(r, out[a], box)
  }

  /** No two survivors overlap, and every box is a survivor or is covered by one. */
  lemma SurvivorsAreTheKernel(r: Rule, sorted: seq<Box>)
    requires Descending(sorted)
    ensures Apart(r, Survivors(r, sorted)) && Descending(Survivors(r, sorted))
    ensures multiset(Survivors(r, sorted)) <= multiset(sorted)
    ensures forall j :: 0 <= j < |sorted| ==>
              if Kernel(r, sorted)[j] then sorted[j] in Survivors(r, sorted)
              else Covered(r, Survivors(r, sorted), sorted[j])
  {
    var kept, out := Kernel(r, sorted), Survivors(r, sorted);
    SelectedAreMembers(sorted, kept);
    forall a, b | 0 <= a < b < |out|
      ensures !Overlaps(r, out[a], out[b]) && out[a].score >= out[b].score
    {
      var i, j := SelectedFrom(sorted, kept, a, b);
      assert !Hit(r, sorted, kept, j, j);
    }
    forall j | 0 <= j < |sorted|
      ensures if kept[j] then sorted[j] in out else Covered(r, out, sorted[j])
    {
      if kept[j] {
        var a := KeptIsSelected(sorted, kept, j);
      } else {
        assert Hit(r, sorted, kept, j, j);
        var i :| 0 <= i < j && kept[i] && Overlaps(r, sorted[i], sorted[j]);
        var a := KeptIsSelected(sorted, kept, i);
      }
    }
  }

  lemma {:induction false} AllSelected(s: seq<Box>, kept: seq<bool>)
    requires |s| == |kept| && forall i :: 0 <= i < |s| ==> kept[i]
    ensures Selected(s, kept) == s
  {
    if |s| > 0 {
      AllSelected(s[..|s| - 1], kept[..|s| - 1]);
    }
  }

  lemma {:induction false} ApartSurvives(r: Rule, s: seq<Box>)
    requires Apart(r, s)
    ensures Survivors(r, s) == s
  {
    var kept := Kernel(r, s);
    assert forall j :: 0 <= j < |s| ==> !Hit(r, s, kept, j, j);
    AllSelected(s, kept);
  }

  lemma SameWithout<T>(s: seq<T>, t: seq<T>, a: nat, i: nat)
    requires a < |s| && i < |t| && s[a] == t[i] && multiset(s) == multiset(t)
    ensures multiset(s[..a] + s[a + 1..]) == multiset(t[..i] + t[i + 1..])
  {
    assert s == s[..a] + [s[a]] + s[a + 1..];
    assert t == t[..i] + [t[i]] + t[i + 1..];
    assert multiset(s[..a] + s[a + 1..]) == multiset(s) - multiset{s[a]};
    assert multiset(t[..i] + t[i + 1..]) == multiset(t) - multiset{t[i]};
  }

  lemma SameTail<T>(s: seq<T>, t: seq<T>)
    requires 0 < |s| && 0 < |t| && s[0] == t[0] && multiset(s) == multiset(t)
    ensures multiset(s[1..]) == multiset(t[1..])
  {
    assert s == [s[0]] + s[1..] && t == [t[0]] + t[1..];
    assert multiset(s[1..]) == multiset(s) - multiset{s[0]};
    assert multiset(t[1..]) == multiset(t) - multiset{t[0]};
  }

  /** Two places of a list are two places of any rearrangement of it. */
  lemma TwoPlaces<T>(s: seq<T>, t: seq<T>, i: nat, j: nat) returns (a: nat, b: nat)
    requires multiset(s) == multiset(t) && i < j < |t|
    ensures a < |s| && b < |s| && a != b && s[a] == t[i] && s[b] == t[j]
  {
    assert t[i] in multiset(s);
    a :| 0 <= a < |s| && s[a] == t[i];
    SameWithout(s, t, a, i);
    var rest := s[..a] + s[a + 1..];
    assert (t[..i] + t[i + 1..])[j - 1] == t[j];
    assert t[j] in multiset(rest);
    var c :| 0 <= c < |rest| && rest[c] == t[j];
    b := if c < a then c else c + 1;
  }

  lemma ApartAnyOrder(r: Rule, s: seq<Box>, t: seq<Box>)
    requires Apart(r, s) && multiset(s) == multiset(t)
    ensures Apart(r, t)
  {
    forall i, j | 0 <= i < j < |t| ensures !Overlaps(r, t[i], t[j]) {
      var a, b := TwoPlaces(s, t, i, j);
      OverlapsIsSymmetric(r, t[i], t[j]);
    }
  }

  /** Suppressing the survivors once more drops nothing, however the sort breaks ties. */
  lemma SuppressionIsIdempotent(
    r: Rule, list: seq<Box>, sorted: seq<Box>, out: seq<Box>, again: seq<Box>, out': seq<Box>)
    requires Outcome(r, list, sorted, out) && Outcome(r, out, again, out')
    ensures multiset(out') == multiset(out)
    ensures DistinctScores(list) ==> out' == out
  {
    SurvivorsAreTheKernel(r, sorted);
    ApartAnyOrder(r, out, again);
    ApartSurvives(r, again);
    if DistinctScores(list) {
      DistinctAnyOrder(list, sorted);
      SurvivorsDistinct(r, sorted);
      SortedIsUnique(out, again);
    }
  }

  lemma DistinctAnyOrder(s: seq<Box>, t: seq<Box>)
    requires DistinctScores(s) && multiset(s) == multiset(t)
    ensures DistinctScores(t)
  {
    forall i, j | 0 <= i < j < |t| ensures t[i].score != t[j].score {
      var a, b := TwoPlaces(s, t, i, j);
      if a < b {
      } else {
        assert s[b].score != s[a].score;
      }
    }
  }

  lemma SurvivorsDistinct(r: Rule, sorted: seq<Box>)
    requires DistinctScores(sorted)
    ensures DistinctScores(Survivors(r, sorted))
  {
    var out := Survivors(r, sorted);
    forall a, b | 0 <= a < b < |out| ensures out[a].score != out[b].score {
      var i, j := SelectedFrom(sorted, Kernel(r, sorted), a, b);
    }
  }

  lemma SameTop(s: seq<Box>, t: seq<Box>)
    requires Descending(s) && Descending(t) && DistinctScores(s) && multiset(s) == multiset(t) && s != []
    ensures |s| == |t| && s[0] == t[0]
  {
    assert |s| == |multiset(s)| == |multiset(t)| == |t|;
    assert t[0] in multiset(s) && s[0] in multiset(t);
    var i :| 0 <= i < |s| && s[i] == t[0];
    var j :| 0 <= j < |t| && t[j] == s[0];
    assert s[0].score >= s[i].score == t[0].score >= t[j].score == s[0].score;
  }

  lemma RestSorted(s: seq<Box>)
    requires Descending(s) && s != []
    ensures Descending(s[1..]) && (DistinctScores(s) ==> DistinctScores(s[1..]))
  {
  }

  lemma SameRest(s: seq<Box>, t: seq<Box>)
    requires Descending(s) && Descending(t) && DistinctScores(s) && multiset(s) == multiset(t) && s != []
    ensures |s| == |t| && s[0] == t[0]
    ensures Descending(s[1..]) && Descending(t[1..]) && DistinctScores(s[1..]) && multiset(s[1..]) == multiset(t[1..])
  {
    SameTop(s, t);
    RestSorted(s);
    RestSorted(t);
    SameTail(s, t);
  }

  lemma {:induction false} SortedIsUnique(s: seq<Box>, t: seq<Box>)
    requires Descending(s) && Descending(t) && DistinctScores(s) && multiset(s) == multiset(t)
    ensures s == t
  {
    if s == [] {
      assert |multiset(t)| == 0;
    } else {
      SameRest(s, t);
      SortedIsUnique(s[1..], t[1..]);
      assert s == [s[0]] + s[1..] == [t[0]] + t[1..] == t;
    }
  }

  /** With pairwise distinct scores the outcome does not depend on the order of the list. */
  lemma OrderDoesNotMatter(r: Rule, l: seq<Box>, l': seq<Box>, s: seq<Box>, s': seq<Box>, out: seq<Box>, out': seq<Box>)
    requires DistinctScores(l) && multiset(l) == multiset(l')
    requires Outcome(r, l, s, out) && Outcome(r, l', s', out')
    ensures out == out'
  {
    DistinctAnyOrder(l, s);
    SortedIsUnique(s, s');
  }

  /** Of two overlapping boxes with one score, whichever the sort puts first survives. */
  lemma TiesDependOnOrder(r: Rule, a: Box, b: Box)
    requires a != b && a.score == b.score && Overlaps(r, a, b)
    ensures Outcome(r, [a, b], [a, b], [a]) && Outcome(r, [a, b], [b, a], [b])
  {
    OverlapsIsSymmetric(r, a, b);
    FirstOfTwo(r, a, b);
    FirstOfTwo(r, b, a);
  }

  lemma FirstOfTwo(r: Rule, a: Box, b: Box)
    requires Overlaps(r, a, b)
    ensures Survivors(r, [a, b]) == [a]
  {
    var s := [a, b];
    var kept := Kernel(r, s);
    assert !Hit(r, s, kept, 0, 0);
    assert kept[0];
    assert Hit(r, s, kept, 1, 1);
    assert Selected(s[..0], kept[..0]) == [];
    assert s[..1][..0] == s[..0] && kept[..1][..0] == kept[..0];
    assert Selected(s[..1], kept[..1]) == [a];
  }
}
