/** `board_to_string`: the board snapshot stored with every game result, the
    nine cells in row-major order joined by commas.  The board is a float
    array, so each cell is written as "0.0", "1.0" or "2.0".  A parser for
    the snapshot is given beside it as its inverse. */
module Snapshot {
  import opened Rules
  import opened Wrappers

  /** `str` of a cell of the float board. */
  function CellText(v: int): string
    requires IsCell(v)
  {
    if v == EMPTY then "0.0" else if v == HUMAN then "1.0" else "2.0"
  }

  /** The cell a token stands for, if it is one of the three cell texts. */
  function ParseCell(t: string): Option<int> {
    if t == "0.0" then Some(EMPTY)
    else if t == "1.0" then Some(HUMAN)
    else if t == "2.0" then Some(AI)
    else None
  }

  /** The cell texts in row-major order (`map(str, board.flatten())`). */
  function Tokens(b: seq<int>): seq<string>
    requires ValidBoard(b)
  {
    seq(CELLS, i requires 0 <= i < CELLS => CellText(b[i]))
  }

  /** `','.join(ts)`. */
  function Join(ts: seq<string>): string {
    if |ts| == 0 then ""
    else if |ts| == 1 then ts[0]
    else ts[0] + "," + Join(ts[1..])
  }

  /** The pieces of `s` between commas; there is always at least one. */
  function Split(s: string): (r: seq<string>)
    ensures |r| >= 1
  {
    if |s| == 0 then [""]
    else
      var rest := Split(s[1..]);
      if s[0] == ',' then [""] + rest
      else [[s[0]] + rest[0]] + rest[1..]
  }

  /** `board_to_string(board)`: 35 characters, the text of cell i at
      positions 4i..4i+2 and a comma at exactly every fourth position. */
  function BoardToString(b: seq<int>): (s: string)
    requires ValidBoard(b)
    ensures |s| == 4 * CELLS - 1
    ensures forall i :: 0 <= i < CELLS ==> s[4 * i .. 4 * i + 3] == CellText(b[i])
    ensures forall j :: 0 <= j < |s| ==> (s[j] == ',' <==> j % 4 == 3)
  {
    var ts := Tokens(b);
    JoinLayout(ts);
    assert forall i :: 0 <= i < CELLS ==> ts[i] == CellText(b[i]);
    Join(ts)
  }

  /** Joining three-character comma-free tokens puts token i at positions
      4i..4i+2 and a comma at exactly every fourth position. */
  lemma {:induction false} JoinLayout(ts: seq<string>)
    requires |ts| >= 1 && forall k :: 0 <= k < |ts| ==> |ts[k]| == 3 && CommaFree(ts[k])
    ensures |Join(ts)| == 4 * |ts| - 1
    ensures forall i :: 0 <= i < |ts| ==> Join(ts)[4 * i .. 4 * i + 3] == ts[i]
    ensures forall j :: 0 <= j < |Join(ts)| ==> (Join(ts)[j] == ',' <==> j % 4 == 3)
  {
    if |ts| > 1 {
      var rest := Join(ts[1..]);
      JoinLayout(ts[1..]);
      var s := ts[0] + "," + rest;
      assert Join(ts) == s;
      forall i | 0 <= i < |ts| ensures s[4 * i .. 4 * i + 3] == ts[i] {
        if i > 0 {
          assert s[4 * i .. 4 * i + 3] == rest[4 * (i - 1) .. 4 * (i - 1) + 3];
          assert ts[1..][i - 1] == ts[i];
        }
      }
      forall j | 0 <= j < |s| ensures s[j] == ',' <==> j % 4 == 3 {
        if j < 3 {
          assert s[j] == ts[0][j];
        } else if j > 3 {
          assert s[j] == rest[j - 4];
          assert (j - 4) % 4 == j % 4;
        }
      }
    }
  }

  /** Reads a snapshot back: nine comma-separated cell texts. */
  function ParseBoard(s: string): Option<seq<int>> {
    var ts := Split(s);
    if |ts| != CELLS then None else ParseCells(ts)
  }

  function ParseCells(ts: seq<string>): Option<seq<int>> {
    if |ts| == 0 then Some([])
    else match (ParseCell(ts[0]), ParseCells(ts[1..]))
      case (Some(v), Some(vs)) => Some([v] + vs)
      case _ => None
  }

  predicate CommaFree(t: string) {
    forall j :: 0 <= j < |t| ==> t[j] != ','
  }

  lemma {:induction false} SplitCommaFree(t: string, u: string)
    requires CommaFree(t)
    ensures Split(t) == [t]
    ensures Split(t + [','] + u) == [t] + Split(u)
  {
    if |t| > 0 {
      SplitCommaFree(t[1..], u);
      assert (t + [','] + u)[1..] == t[1..] + [','] + u;
      assert [t[0]] + t[1..] == t;
    } else {
      assert t + [','] + u == [','] + u;
      assert ([','] + u)[1..] == u;
    }
  }

  /** Splitting a comma-joined list of comma-free tokens gives the tokens back. */
  lemma {:induction false} SplitJoin(ts: seq<string>)
    requires |ts| >= 1 && forall k :: 0 <= k < |ts| ==> CommaFree(ts[k])
    ensures Split(Join(ts)) == ts
  {
    if |ts| == 1 {
      SplitCommaFree(ts[0], "");
    } else {
      var rest := Join(ts[1..]);
      SplitJoin(ts[1..]);
      SplitCommaFree(ts[0], rest);
      assert Join(ts) == ts[0] + [','] + rest;
      assert [ts[0]] + ts[1..] == ts;
    }
  }

  /** The snapshot has exactly nine comma-separated tokens, and token i is the
      text of cell (i / 3, i % 3). */
  lemma BoardToStringTokens(b: seq<int>)
    requires ValidBoard(b)
    ensures |Split(BoardToString(b))| == CELLS
    ensures forall i :: 0 <= i < CELLS ==>
      Split(BoardToString(b))[i] == CellText(b[Idx(i / 3, i % 3)])
    ensures forall i :: 0 <= i < CELLS ==>
      Split(BoardToString(b))[i] in {"0.0", "1.0", "2.0"}
  {
    var ts := Tokens(b);
    forall k | 0 <= k < |ts| ensures CommaFree(ts[k]) { }
    SplitJoin(ts);
  }

  lemma {:induction false} ParseCellsTokens(b: seq<int>, n: nat)
    requires ValidBoard(b) && n <= CELLS
    ensures ParseCells(Tokens(b)[n..]) == Some(b[n..])
    decreases CELLS - n
  {
    var ts := Tokens(b)[n..];
    if n < CELLS {
      ParseCellsTokens(b, n + 1);
      assert ts[0] == CellText(b[n]);
      assert ParseCell(ts[0]) == Some(b[n]);
      assert ts[1..] == Tokens(b)[n + 1..];
      assert ParseCells(ts) == Some([b[n]] + b[n + 1..]);
      assert [b[n]] + b[n + 1..] == b[n..];
    } else {
      assert ts == [] && b[n..] == [];
    }
  }

  /** Reading a snapshot back gives the same nine cells. */
  lemma BoardToStringRoundTrip(b: seq<int>)
    requires ValidBoard(b)
    ensures ParseBoard(BoardToString(b)) == Some(b)
  {
    BoardToStringTokens(b);
    ParseCellsTokens(b, 0);
    SplitJoin(Tokens(b));
    assert Tokens(b)[0..] == Tokens(b);
    assert b[0..] == b;
  }
}
