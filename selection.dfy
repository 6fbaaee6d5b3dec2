/** Choosing the pair with the smallest p-value. Python's
    `min(xs, key=...)` keeps its first item and replaces it only with an
    item whose key is strictly smaller, and so does the older screener's
    loop: both return the FIRST position of the minimum. */
module Selection {

  /** The first position holding the minimum of ps. */
  function ArgMinFirst(ps: seq<real>): (k: nat)
    requires |ps| > 0
    ensures k < |ps|
    ensures forall j :: 0 <= j < |ps| ==> ps[k] <= ps[j]
    ensures forall j :: 0 <= j < k ==> ps[k] < ps[j]
  {
    if |ps| == 1 then 0
    else
      var m := ArgMinFirst(ps[..|ps| - 1]);
      if ps[|ps| - 1] < ps[m] then |ps| - 1 else m
  }

  /** Extending the scanned prefix by one item moves the choice to that
      item exactly when it is strictly smaller than the current choice. */
  lemma ArgMinFirstStep(ps: seq<real>, k: nat)
    requires 0 < k < |ps|
    ensures ArgMinFirst(ps[..k + 1]) ==
              if ps[k] < ps[ArgMinFirst(ps[..k])] then k else ArgMinFirst(ps[..k])
  {
    assert ps[..k + 1][..k] == ps[..k];
  }

  /** The position is determined by its contract: a minimum with no equal
      value before it. */
  lemma {:induction false} ArgMinFirstUnique(ps: seq<real>, k: nat)
    requires k < |ps|
    requires forall j :: 0 <= j < |ps| ==> ps[k] <= ps[j]
    requires forall j :: 0 <= j < k ==> ps[k] < ps[j]
    ensures ArgMinFirst(ps) == k
  {
    var m := ArgMinFirst(ps);
    assert !(m < k) && !(k < m);
  }
}
