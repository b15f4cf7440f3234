/** Where a `filter` keeps its elements: the positions a list of keep-flags marks,
    in order. Both the teacher's roster after a hand-in and the sent option list
    are filters, and are described through these positions. */
module Selection {

  /** The indices `j` with `keep[j]`, in increasing order: each such index once. */
  function Positions(keep: seq<bool>): (p: seq<nat>)
    ensures |p| <= |keep|
    ensures forall i :: 0 <= i < |p| ==> p[i] < |keep| && keep[p[i]]
    ensures forall i, j :: 0 <= i < j < |p| ==> p[i] < p[j]
    ensures forall j :: 0 <= j < |keep| && keep[j] ==> j in p
  {
    if keep == [] then []
    else
      var n := |keep| - 1;
      var init := Positions(keep[..n]);
      assert forall j :: 0 <= j < n ==> keep[..n][j] == keep[j];
      init + (if keep[n] then [n] else [])
  }
}
