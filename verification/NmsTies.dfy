/**
 * Boxes of equal score. The sort leaves their order open, and of two that overlap
 * the first one survives, which is the only way their order shows: what survives is
 * the same in every descending order, copies included, whatever list of boxes is
 * drawn from a set, if and only if no two boxes of the set tie and overlap.
 */
module NmsTies {
  import opened Boxes
  import opened Nms

  /** No two distinct boxes with one score overlap. */
  ghost predicate Untied(r: Rule, boxes: set<Box>) {
    forall a, b :: a in boxes && b in boxes && a != b && a.score == b.score ==> !Overlaps(r, a, b)
  }

  ghost function Members(s: seq<Box>): set<Box> {
    set b | b in s
  }

  /** A survivor with a higher score overlaps the box. */
  ghost predicate Beaten(r: Rule, out: seq<Box>, x: Box) {
    exists y :: y in out && y.score > x.score && Overlaps(r, y, x)
  }

  lemma SurvivorPlace(r: Rule, s: seq<Box>, x: Box) returns (i: nat)
    requires x in Survivors(r, s)
    ensures i < |s| && s[i] == x && Kernel(r, s)[i]
  {
    var a :| 0 <= a < |Survivors(r, s)| && Survivors(r, s)[a] == x;
    i := SelectedOne(s, Kernel(r, s), a);
  }

  lemma {:induction false} FirstPlace(s: seq<Box>, x: Box) returns (j: nat)
    requires x in s
    ensures j < |s| && s[j] == x && x !in s[..j]
  {
    if s[0] == x {
      j := 0;
    } else {
      j := FirstPlace(s[1..], x);
      j := j + 1;
    }
  }

  /** An unbeaten box is kept wherever nothing equal to it that it overlaps stands before it. */
  lemma UnbeatenIsKept(r: Rule, s: seq<Box>, j: nat)
    requires Descending(s) && Untied(r, Members(s)) && j < |s| && !Beaten(r, Survivors(r, s), s[j])
    requires Overlaps(r, s[j], s[j]) ==> s[j] !in s[..j]
    ensures Kernel(r, s)[j]
  {
    var kept, out := Kernel(r, s), Survivors(r, s);
    forall i | 0 <= i < j && kept[i] ensures !Overlaps(r, s[i], s[j]) {
      var a := KeptIsSelected(s, kept, i);
      assert s[i] in out && s[i].score >= s[j].score;
      assert s[i] == s[..j][i];
      assert s[i] in Members(s) && s[j] in Members(s);
    }
  }

  lemma SurvivesExactly(r: Rule, s: seq<Box>, x: Box)
    requires Descending(s) && Untied(r, Members(s)) && x in s
    ensures x in Survivors(r, s) <==> !Beaten(r, Survivors(r, s), x)
  {
    var out, kept := Survivors(r, s), Kernel(r, s);
    if !Beaten(r, out, x) {
      var j := FirstPlace(s, x);
      UnbeatenIsKept(r, s, j);
      var a := KeptIsSelected(s, kept, j);
    }
    if x in out && Beaten(r, out, x) {
      var y :| y in out && y.score > x.score && Overlaps(r, y, x);
      var i := SurvivorPlace(r, s, y);
      var k := SurvivorPlace(r, s, x);
    }
  }

  lemma SameBeaten(r: Rule, out: seq<Box>, out': seq<Box>, x: Box)
    requires forall y: Box :: y.score > x.score ==> (y in out <==> y in out')
    ensures Beaten(r, out, x) <==> Beaten(r, out', x)
  {
  }

  /** The fates of the boxes with higher scores decide that of the next one. */
  lemma SameFate(r: Rule, s: seq<Box>, t: seq<Box>, n: nat)
    requires Descending(s) && Descending(t) && multiset(s) == multiset(t) && Untied(r, Members(s)) && n < |s|
    requires forall i :: 0 <= i < n ==> (s[i] in Survivors(r, s) <==> s[i] in Survivors(r, t))
    ensures s[n] in Survivors(r, s) <==> s[n] in Survivors(r, t)
  {
    SameMembers(s, t);
    var x := s[n];
    SurvivesExactly(r, s, x);
    SurvivesExactly(r, t, x);
    forall y: Box | y.score > x.score ensures y in Survivors(r, s) <==> y in Survivors(r, t) {
      HigherComesFirst(r, s, t, n, y);
    }
    SameBeaten(r, Survivors(r, s), Survivors(r, t), x);
  }

  /** Rearranging the list among equal scores changes no box's fate. */
  lemma {:induction false} SameSurvivors(r: Rule, s: seq<Box>, t: seq<Box>, n: nat)
    requires Descending(s) && Descending(t) && multiset(s) == multiset(t) && Untied(r, Members(s)) && n <= |s|
    ensures forall i :: 0 <= i < n ==> (s[i] in Survivors(r, s) <==> s[i] in Survivors(r, t))
  {
    if n > 0 {
      SameSurvivors(r, s, t, n - 1);
      SameFate(r, s, t, n - 1);
    }
  }

  lemma SameMembers(s: seq<Box>, t: seq<Box>)
    requires multiset(s) == multiset(t)
    ensures Members(s) == Members(t)
    ensures forall x :: x in s <==> x in t
  {
    forall x ensures x in s <==> x in t {
      assert x in multiset(s) <==> x in multiset(t);
    }
  }

  lemma HigherComesFirst(r: Rule, s: seq<Box>, t: seq<Box>, n: nat, y: Box)
    requires Descending(s) && multiset(s) == multiset(t) && n < |s| && y.score > s[n].score
    requires forall i :: 0 <= i < n ==> (s[i] in Survivors(r, s) <==> s[i] in Survivors(r, t))
    ensures y in Survivors(r, s) <==> y in Survivors(r, t)
  {
    SameMembers(s, t);
    if y in s {
      var i := FirstPlace(s, y);
      assert i < n;
    } else {
      if y in Survivors(r, s) {
        var i := SurvivorPlace(r, s, y);
      }
      if y in Survivors(r, t) {
        var i := SurvivorPlace(r, t, y);
      }
    }
  }

  lemma {:induction false} AllCopiesSelected(s: seq<Box>, kept: seq<bool>, x: Box)
    requires |s| == |kept| && forall j :: 0 <= j < |s| && s[j] == x ==> kept[j]
    ensures multiset(Selected(s, kept))[x] == multiset(s)[x]
  {
    if |s| > 0 {
      var n := |s| - 1;
      AllCopiesSelected(s[..n], kept[..n], x);
      assert s == s[..n] + [s[n]];
    }
  }

  lemma TwoCopies(s: seq<Box>, x: Box) returns (a: nat, b: nat)
    requires multiset(s)[x] >= 2
    ensures a < b < |s| && s[a] == x && s[b] == x
  {
    assert x in multiset(s);
    a := FirstPlace(s, x);
    assert s == s[..a] + ([s[a]] + s[a + 1..]);
    assert multiset(s)[x] == multiset(s[..a])[x] + 1 + multiset(s[a + 1..])[x];
    assert x in multiset(s[a + 1..]);
    var c :| 0 <= c < |s[a + 1..]| && s[a + 1..][c] == x;
    b := a + 1 + c;
  }

  /** How often a box survives: once if it overlaps itself, else as often as it is listed, or never. */
  lemma CopiesSurviving(r: Rule, s: seq<Box>, x: Box)
    requires Descending(s) && Untied(r, Members(s))
    ensures multiset(Survivors(r, s))[x] ==
            if x !in Survivors(r, s) then 0 else if Overlaps(r, x, x) then 1 else multiset(s)[x]
  {
    var out := Survivors(r, s);
    if x in out {
      assert x in multiset(out);
      if Overlaps(r, x, x) {
        SurvivorsAreTheKernel(r, s);
        if multiset(out)[x] >= 2 {
          var a, b := TwoCopies(out, x);
        }
      } else {
        var k := SurvivorPlace(r, s, x);
        SurvivesExactly(r, s, x);
        forall j | 0 <= j < |s| && s[j] == x ensures Kernel(r, s)[j] {
          UnbeatenIsKept(r, s, j);
        }
        AllCopiesSelected(s, Kernel(r, s), x);
      }
    } else {
      assert x !in multiset(out);
    }
  }

  /** However the sorts break ties, the same boxes survive, and equally often, unless two tied boxes overlap. */
  lemma UntiedOrderDoesNotMatter(r: Rule, s: seq<Box>, t: seq<Box>)
    requires Descending(s) && Descending(t) && multiset(s) == multiset(t) && Untied(r, Members(s))
    ensures multiset(Survivors(r, s)) == multiset(Survivors(r, t))
  {
    SameMembers(s, t);
    forall x ensures multiset(Survivors(r, s))[x] == multiset(Survivors(r, t))[x] {
      CopiesSurviving(r, s, x);
      CopiesSurviving(r, t, x);
      if x in s {
        var j := FirstPlace(s, x);
        SameSurvivors(r, s, t, |s|);
      } else {
        if x in Survivors(r, s) {
          var i := SurvivorPlace(r, s, x);
        }
        if x in Survivors(r, t) {
          var i := SurvivorPlace(r, t, x);
        }
      }
    }
  }

  /** All sorts of the list leave the same boxes. */
  ghost predicate OneOutcome(r: Rule, list: seq<Box>) {
    forall s, t, out, out' :: Outcome(r, list, s, out) && Outcome(r, list, t, out') ==> multiset(out) == multiset(out')
  }

  /**
   * The outcome never depends on the order, whatever list is made of the given
   * boxes, if and only if no two distinct boxes with one score overlap.
   */
  lemma OrderNeverMattersExactly(r: Rule, boxes: set<Box>)
    ensures (forall list :: Members(list) <= boxes ==> OneOutcome(r, list)) <==> Untied(r, boxes)
  {
    if Untied(r, boxes) {
      forall list | Members(list) <= boxes ensures OneOutcome(r, list) {
        forall s, t, out, out' | Outcome(r, list, s, out) && Outcome(r, list, t, out')
          ensures multiset(out) == multiset(out')
        {
          SameMembers(list, s);
          UntiedOrderDoesNotMatter(r, s, t);
        }
      }
    } else {
      var a, b :| a in boxes && b in boxes && a != b && a.score == b.score && Overlaps(r, a, b);
      TiesDependOnOrder(r, a, b);
      assert Members([a, b]) <= boxes;
      assert a in multiset([a]) && a !in multiset([b]);
    }
  }
}
