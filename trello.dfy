/** The board service's entities, as the values the modelled code reads and writes. */
module Trello {
  import opened Wrappers
  import opened Calendar

  /**
   * A card: its identifier, its title, its due date-time if it has one (in
   * one fixed zone, UTC as the service reports it) and its position, the real
   * number by which the service orders the cards of a list.
   */
  datatype Card = Card(id: string, name: string, due: Option<DateTime>, pos: real)

  /** A label defined on a board. */
  datatype Label = Label(id: string, name: string)
}
