/** The standard deck: card identities are the numbers below fifty-two. */
module StandardDeck {

  const DECK_SIZE: nat := 52

  type Card = c: nat | c < DECK_SIZE
}
