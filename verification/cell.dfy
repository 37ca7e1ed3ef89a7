/** A single square of the Game of Life board: whether it is live, and the
    number of live neighbours last recorded for it. The count is stored as
    an unsigned byte and nothing in this component bounds it further; no
    arithmetic is done on it, so there is no wrap-around to model. */
module Cells {

  /** An unsigned 8-bit integer. */
  newtype u8 = x: int | 0 <= x < 0x100

  datatype Cell = Cell(live: bool, neighborCount: u8)

  /** A fresh cell is dead and has seen no live neighbours. */
  function New(): (c: Cell)
    ensures !c.live
    ensures c.neighborCount == 0
  {
    Cell(false, 0)
  }

  /** Brings the cell to life; its recorded count is kept. */
  function On(c: Cell): (r: Cell)
    ensures r.live
    ensures r.neighborCount == c.neighborCount
  {
    c.(live := true)
  }

  /** Kills the cell; its recorded count is kept. */
  function Off(c: Cell): (r: Cell)
    ensures !r.live
    ensures r.neighborCount == c.neighborCount
  {
    c.(live := false)
  }

  /** Overwrites the recorded neighbour count, keeping the liveness. Any byte
      is accepted, including counts above eight. */
  function WithNeighborCount(c: Cell, n: u8): (r: Cell)
    ensures r.neighborCount == n
    ensures r.live == c.live
  {
    c.(neighborCount := n)
  }

  /** Switching a cell on twice is the same as switching it on once. */
  lemma OnIdempotent(c: Cell)
    ensures On(On(c)) == On(c)
  {
  }

  /** Switching a cell off twice is the same as switching it off once. */
  lemma OffIdempotent(c: Cell)
    ensures Off(Off(c)) == Off(c)
  {
  }

  /** The last of `On`/`Off` decides the liveness: the earlier call is
      forgotten, and a fresh cell switched on and then off is fresh again. */
  lemma LastSwitchWins(c: Cell)
    ensures Off(On(c)) == Off(c)
    ensures On(Off(c)) == On(c)
    ensures Off(On(New())) == New()
  {
  }

  /** `On` undoes `Off` on a live cell and `Off` undoes `On` on a dead one. */
  lemma SwitchRoundTrip(c: Cell)
    ensures c.live ==> On(Off(c)) == c
    ensures !c.live ==> Off(On(c)) == c
  {
  }

  /** Switching liveness and writing the count touch different fields, so the
      order in which they happen does not matter. */
  lemma SwitchCommutesWithCount(c: Cell, n: u8)
    ensures On(WithNeighborCount(c, n)) == WithNeighborCount(On(c), n)
    ensures Off(WithNeighborCount(c, n)) == WithNeighborCount(Off(c), n)
  {
  }
}
