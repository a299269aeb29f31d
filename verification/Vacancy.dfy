/** The doubly linked list of vacant cells that the builder searches, as an
    invariant on the link array, and what walking the list visits. */
module Vacancy {

  datatype Link = Link(prev: nat, next: nat)

  /** No index of `vac` lies strictly between `i` and `j`. */
  ghost predicate NoneBetween(vac: set<nat>, i: nat, j: nat) {
    forall k :: i < k < j ==> k !in vac
  }

  /** `e[i].next` is the next vacant index after `i`, or the end, and points back. */
  ghost predicate NextOk(e: seq<Link>, vac: set<nat>, i: nat)
    requires i < |e|
  {
    var j := e[i].next;
    && i < j <= |e|
    && (j < |e| ==> j in vac && e[j].prev == i)
    && NoneBetween(vac, i, j)
  }

  /** `e[i].prev` is the head or a vacant index, and points on to `i`. */
  ghost predicate PrevOk(e: seq<Link>, vac: set<nat>, i: nat)
    requires i < |e|
  {
    var q := e[i].prev;
    q < i && (q == 0 || q in vac) && e[q].next == i
  }

  /** The list headed by index 0 links exactly the indices of `vac`, ascending,
      both ways; the last index of the array is vacant and named by `e[0].prev`. */
  ghost predicate Chained(e: seq<Link>, vac: set<nat>) {
    && |e| >= 1
    && (forall i :: i in vac ==> 1 <= i < |e|)
    && (forall i: nat {:trigger NextOk(e, vac, i)} :: i < |e| && (i == 0 || i in vac) ==> NextOk(e, vac, i))
    && (forall i: nat {:trigger PrevOk(e, vac, i)} :: i in vac ==> PrevOk(e, vac, i))
    && e[0].prev == |e| - 1
    && (|e| > 1 ==> |e| - 1 in vac)
  }

  /** The indices met when following `next` from `i`. */
  ghost function Walk(e: seq<Link>, vac: set<nat>, i: nat): (w: seq<nat>)
    requires Chained(e, vac) && i < |e| && (i == 0 || i in vac)
    decreases |e| - i
  {
    var j := e[i].next;
    assert NextOk(e, vac, i);
    if j < |e| then [j] + Walk(e, vac, j) else []
  }

  /** The walk is strictly ascending and visits exactly the vacant indices above `i`. */
  lemma {:induction false} WalkVisitsVacant(e: seq<Link>, vac: set<nat>, i: nat)
    requires Chained(e, vac) && i < |e| && (i == 0 || i in vac)
    ensures var w := Walk(e, vac, i);
            && (forall k :: k in w <==> k in vac && i < k)
            && (forall a, b :: 0 <= a < b < |w| ==> w[a] < w[b])
    decreases |e| - i
  {
    var j := e[i].next;
    assert NextOk(e, vac, i);
    if |e| <= j {
    } else {
      WalkVisitsVacant(e, vac, j);
      var w := Walk(e, vac, j);
      forall k ensures k in [j] + w <==> k in vac && i < k {
        assert k in [j] + w <==> k == j || k in w;
      }
      forall a, b | 0 <= a < b < |w| + 1 ensures ([j] + w)[a] < ([j] + w)[b] {
        assert ([j] + w)[b] == w[b - 1];
        assert w[b - 1] in w;
      }
    }
  }

  /** `e[0].prev` names the largest vacant index, which is where the next cells are linked in. */
  lemma LastVacant(e: seq<Link>, vac: set<nat>)
    requires Chained(e, vac) && |e| > 1
    ensures e[0].prev in vac && e[e[0].prev].next == |e|
    ensures forall k :: k in vac ==> k <= e[0].prev
  {
    assert NextOk(e, vac, |e| - 1);
  }
}
