/**
 * Penalty lines (Game.sendPenaltyLines, addPenaltyLines and
 * applyPendingPenalties in back/Game.js): the pending counts kept per
 * player and the gray indestructible rows pushed in from the bottom.
 */
module Penalty {
  import opened Board

  /** The cell of a penalty row. */
  const PenaltyCell := Cell(true, "gray", true)

  function PenaltyRow(): (row: seq<Cell>)
    ensures |row| == Cols
  {
    seq(Cols, _ => PenaltyCell)
  }

  function PenaltyRows(n: nat): (rows: Grid)
    ensures |rows| == n && forall i :: 0 <= i < n ==> rows[i] == PenaltyRow()
  {
    seq(n, _ => PenaltyRow())
  }

  /** Array.prototype.shift: drop the first row if there is one. */
  function Shift(g: Grid): Grid {
    if g == [] then [] else g[1..]
  }

  /** The grid after `n` rounds of addPenaltyLines' loop: shift off the top row, push a penalty row. */
  function {:induction false} WithPenaltyRows(g: Grid, n: nat): Grid {
    if n == 0 then g else Shift(WithPenaltyRows(g, n - 1)) + [PenaltyRow()]
  }

  /**
   * On a non-empty grid each round removes the top row and adds one at
   * the bottom: the grid keeps its height, loses its top `n` rows and ends
   * in `n` penalty rows.
   */
  lemma {:induction false} PenaltyRowsPushUp(g: Grid, n: nat)
    requires |g| > 0
    ensures WithPenaltyRows(g, n) == (g + PenaltyRows(n))[n..]
  {
    if n > 0 {
      PenaltyRowsPushUp(g, n - 1);
      var prev := (g + PenaltyRows(n - 1))[n - 1..];
      assert |prev| == |g| > 0;
      assert Shift(prev) == (g + PenaltyRows(n - 1))[n..];
      assert g + PenaltyRows(n) == (g + PenaltyRows(n - 1)) + [PenaltyRow()];
    }
  }

  /**
   * What the player sees: with n <= height the old rows from n down move
   * to the top and the bottom n rows are penalty rows; with more, the
   * whole grid is penalty rows. Either way the grid stays 20 x 10.
   */
  lemma PenaltyRowsLayout(g: Grid, n: nat)
    requires IsGrid(g)
    ensures var r := WithPenaltyRows(g, n);
      && IsGrid(r)
      && (n <= |g| ==> r[..|g| - n] == g[n..] && r[|g| - n..] == PenaltyRows(n))
      && (n >= |g| ==> r == PenaltyRows(|g|))
  {
    PenaltyRowsPushUp(g, n);
    var r := WithPenaltyRows(g, n);
    forall i | 0 <= i < |r| ensures |r[i]| == Cols {
      assert r[i] == (g + PenaltyRows(n))[n + i];
    }
    if n >= |g| {
      assert r == PenaltyRows(|g|);
    }
  }

  /** The loop of addPenaltyLines. */
  method AddPenaltyLines(g: Grid, penaltyLines: int) returns (r: Grid)
    ensures r == WithPenaltyRows(g, if penaltyLines > 0 then penaltyLines else 0)
  {
    r := g;
    var i := 0;
    while i < penaltyLines
      invariant 0 <= i && (penaltyLines > 0 ==> i <= penaltyLines) && (penaltyLines <= 0 ==> i == 0)
      invariant r == WithPenaltyRows(g, i)
    {
      r := Shift(r) + [PenaltyRow()];
      i := i + 1;
    }
  }

  /** `this.pendingPenalties.get(id) || 0`. */
  function Get(pending: map<string, nat>, id: string): nat {
    if id in pending then pending[id] else 0
  }

  /** How often `id` occurs in `ids`. */
  function {:induction false} Count(ids: seq<string>, id: string): nat {
    if ids == [] then 0 else Count(ids[..|ids| - 1], id) + (if ids[|ids| - 1] == id then 1 else 0)
  }

  /**
   * The pending counts after sendPenaltyLines' loop has visited `ids` in
   * order, adding `k` for every id other than the clearer's.
   */
  function {:induction false} Queued(pending: map<string, nat>, ids: seq<string>, clearer: string, k: nat): map<string, nat> {
    if ids == [] then pending
    else
      var before := Queued(pending, ids[..|ids| - 1], clearer, k);
      var id := ids[|ids| - 1];
      if id != clearer then before[id := Get(before, id) + k] else before
  }

  /** Distributes `k` over `c + 1`; an arithmetic proof step with no counterpart in the source. */
  lemma MulSucc(k: nat, c: nat)
    ensures k * (c + 1) == k * c + k
  {
  }

  /**
   * Every player other than the clearer gets `k` more pending lines for
   * each time its id appears in the roster; the clearer's count and the
   * counts of ids not in the roster stay as they were.
   */
  lemma {:induction false} QueuedCount(pending: map<string, nat>, ids: seq<string>, clearer: string, k: nat, id: string)
    ensures Get(Queued(pending, ids, clearer, k), id) ==
      Get(pending, id) + (if id == clearer then 0 else k * Count(ids, id))
  {
    if ids != [] {
      var ids', last := ids[..|ids| - 1], ids[|ids| - 1];
      QueuedCount(pending, ids', clearer, k, id);
      var before := Queued(pending, ids', clearer, k);
      var after := Queued(pending, ids, clearer, k);
      var c := Count(ids', id);
      if id == last {
        assert Count(ids, id) == c + 1;
        MulSucc(k, c);
      } else {
        assert Count(ids, id) == c;
      }
      if last != clearer {
        assert after == before[last := Get(before, last) + k];
      } else {
        assert after == before;
      }
    }
  }

  /** Queueing never drops an entry, and adds one exactly for the other roster ids. */
  lemma {:induction false} QueuedKeys(pending: map<string, nat>, ids: seq<string>, clearer: string, k: nat)
    ensures Queued(pending, ids, clearer, k).Keys ==
      pending.Keys + (set i | 0 <= i < |ids| && ids[i] != clearer :: ids[i])
  {
    if ids != [] {
      var ids' := ids[..|ids| - 1];
      QueuedKeys(pending, ids', clearer, k);
      var others := set i | 0 <= i < |ids| && ids[i] != clearer :: ids[i];
      var others' := set i | 0 <= i < |ids'| && ids'[i] != clearer :: ids'[i];
      var last := ids[|ids| - 1];
      assert others == others' + (if last != clearer then {last} else {}) by {
        forall x | x in others ensures x in others' + (if last != clearer then {last} else {}) {
          var i :| 0 <= i < |ids| && ids[i] != clearer && ids[i] == x;
          if i < |ids'| {
            assert ids'[i] == x;
          }
        }
        forall x | x in others' ensures x in others {
          var i :| 0 <= i < |ids'| && ids'[i] != clearer && ids'[i] == x;
          assert ids[i] == x;
        }
      }
    }
  }
}
