/** The two bcrypt calls the server makes, `hashSync(password, rounds)` and
    `compareSync(password, hash)`, as opaque function values. The random salt that
    makes `hashSync` non-deterministic is an explicit argument. */
module Bcrypt {

  /** The cost factor the server passes to `hashSync`. */
  const SaltRounds: nat := 10

  datatype Hasher = Hasher(hash: (string, nat, nat) -> string, compare: (string, string) -> bool)

  /** The one property the model relies on: a password matches every hash made
      of it, whatever the cost factor and the salt. */
  ghost predicate Sound(h: Hasher) {
    forall password: string, rounds: nat, salt: nat :: h.compare(password, h.hash(password, rounds, salt))
  }
}
