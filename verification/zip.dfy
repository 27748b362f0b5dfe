/** `zip`: arrays of different lengths combined position by position. */
module Zip {
  import opened Wrappers

  /** Length of the longest input, 0 when there are none. */
  function MaxLength<T>(ss: seq<seq<T>>): (n: nat)
    ensures forall j :: 0 <= j < |ss| ==> |ss[j]| <= n
    ensures ss == [] ==> n == 0
    ensures ss != [] ==> exists j :: 0 <= j < |ss| && |ss[j]| == n
  {
    if ss == [] then 0
    else
      var m := MaxLength(ss[1..]);
      assert forall j :: 1 <= j < |ss| ==> ss[j] == ss[1..][j - 1];
      if |ss[0]| >= m then |ss[0]| else m
  }

  /** `zip(s0, ..., sn)`: one tuple per position up to the longest input's
      length; tuple i holds the i-th element of every input, in argument
      order, with `undefined` where an input is too short. */
  method Zip<T>(ss: seq<seq<T>>) returns (rows: seq<seq<Option<T>>>)
    ensures |rows| == MaxLength(ss)
    ensures forall i :: 0 <= i < |rows| ==> |rows[i]| == |ss|
    ensures forall i, j :: 0 <= i < |rows| && 0 <= j < |ss| ==>
      rows[i][j] == if i < |ss[j]| then Some(ss[j][i]) else None
  {
    var n := MaxLength(ss);
    rows := [];
    for i := 0 to n
      invariant |rows| == i
      invariant forall r :: 0 <= r < i ==> |rows[r]| == |ss|
      invariant forall r, j :: 0 <= r < i && 0 <= j < |ss| ==>
        rows[r][j] == if r < |ss[j]| then Some(ss[j][r]) else None
    {
      var row: seq<Option<T>> := [];
      for j := 0 to |ss|
        invariant |row| == j
        invariant forall k :: 0 <= k < j ==> row[k] == if i < |ss[k]| then Some(ss[k][i]) else None
      {
        var cell := if i < |ss[j]| then Some(ss[j][i]) else None;
        row := row + [cell];
      }
      rows := rows + [row];
    }
  }
}
