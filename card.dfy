/** The records the game works on: a character fetched from the catalog and a
    card of the deck (src/interfaces/Card.ts). */
module Cards {

  /** A catalog character as the remote service returns it. Only `id` takes
      part in the game logic; name and image are carried for display. */
  datatype Character = Character(id: int, name: string, image: string)

  /** One card of the deck. `id` is unique per card (not per character);
      `flipped` says the card is face up, `matched` that its pair was found. */
  datatype Card = Card(id: nat, character: Character, flipped: bool, matched: bool)

  /** The outcome of the all-or-nothing batch of catalog requests. */
  datatype Option<T> = None | Some(value: T)
}
