/** Octets, and octet sequences cut into pieces. */
module Octets {
  newtype byte = x: int | 0 <= x < 256

  function Flatten(pieces: seq<seq<byte>>): seq<byte> {
    if pieces == [] then [] else pieces[0] + Flatten(pieces[1..])
  }
}
