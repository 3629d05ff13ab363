/** `find_empty_box`: the first empty cell in row-major order. */
module EmptyCell {
  import opened Grid

  /** First index at or after k whose cell is empty. */
  function FirstZeroFrom(b: seq<int>, k: int): (r: Option<int>)
    requires IsBoard(b) && 0 <= k <= 81
    ensures r.Some? ==> k <= r.value < 81 && b[r.value] == 0 && forall j :: k <= j < r.value ==> b[j] != 0
    ensures r.None? ==> forall j :: k <= j < 81 ==> b[j] != 0
    decreases 81 - k
  {
    if k == 81 then None
    else if b[k] == 0 then Some(k)
    else FirstZeroFrom(b, k + 1)
  }

  /** The (row, col) that `find_empty_box` returns: an empty cell with every
      cell before it in row-major order filled, or None when no cell is empty. */
  function FirstEmpty(b: seq<int>): (r: Option<(int, int)>)
    requires IsBoard(b)
    ensures r.Some? ==> InRange(r.value.0, r.value.1) && Cell(b, r.value.0, r.value.1) == 0
    ensures r.Some? ==> forall row, col :: InRange(row, col) && (row < r.value.0 || (row == r.value.0 && col < r.value.1)) ==> Cell(b, row, col) != 0
    ensures r.None? <==> NoZeros(b)
  {
    match FirstZeroFrom(b, 0)
    case None => None
    case Some(k) => Some((k / 9, k % 9))
  }

  /** `find_empty_box`: the nested row/column scan with its early return. */
  method FindEmptyBox(board: seq<int>) returns (r: Option<(int, int)>)
    requires IsBoard(board)
    ensures r == FirstEmpty(board)
  {
    for i := 0 to 9
      invariant forall k :: 0 <= k < i * 9 ==> board[k] != 0
    {
      for j := 0 to 9
        invariant forall k :: 0 <= k < i * 9 + j ==> board[k] != 0
      {
        if board[i * 9 + j] == 0 {
          assert FirstZeroFrom(board, 0) == Some(i * 9 + j);
          return Some((i, j));
        }
      }
    }
    return None;
  }
}
