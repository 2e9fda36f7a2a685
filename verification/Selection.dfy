/** Selections: the items found at a tuple of positions. */
module Selection {
  import opened Lex

  predicate Within(t: Tuple, n: nat) {
    forall i | 0 <= i < |t| :: 0 <= t[i] < n
  }

  function Pick<T>(items: seq<T>, t: Tuple): (r: seq<T>)
    requires Within(t, |items|)
    ensures |r| == |t| && forall h | 0 <= h < |t| :: r[h] == items[t[h]]
  {
    seq(|t|, i requires 0 <= i < |t| => items[t[i]])
  }

  function PickAll<T>(items: seq<T>, ts: seq<Tuple>): (r: seq<seq<T>>)
    requires forall t | t in ts :: Within(t, |items|)
    ensures |r| == |ts| && forall v | 0 <= v < |ts| :: r[v] == Pick(items, ts[v])
  {
    seq(|ts|, i requires 0 <= i < |ts| => Pick(items, ts[i]))
  }

  /** One result for each tuple in turn, holding the items at its positions in turn. */
  ghost predicate Selects<T>(items: seq<T>, ts: seq<Tuple>, out: seq<seq<T>>) {
    && |out| == |ts|
    && forall v | 0 <= v < |ts| ::
         && |out[v]| == |ts[v]|
         && forall h | 0 <= h < |ts[v]| :: 0 <= ts[v][h] < |items| && out[v][h] == items[ts[v][h]]
  }
}
