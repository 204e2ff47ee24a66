/** A clue: fixed text plus the direction and order the crossword lists it under.
    Words overwrite direction and order when they are built around the clue. */
module Clues {
  import opened Layout

  class Clue {
    const text: string
    var direction: Direction
    var order: int

    /** Builds a clue; direction defaults to across and order to 0. */
    constructor (text: string, direction: Direction := Across, order: int := 0)
      ensures this.text == text && this.direction == direction && this.order == order
    {
      this.text := text;
      this.direction := direction;
      this.order := order;
    }
  }
}
