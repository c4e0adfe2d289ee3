/**
  An incremental hasher, as far as identity goes: the bytes it was fed. Two identifiers are
  equal when these bytes are, and otherwise only if the hash itself collides.
 */
module Hasher {
  import opened Bytes

  class Hasher {
    var fed: Str

    constructor ()
      ensures fed == []
    {
      fed := [];
    }

    method Update(bytes: Str)
      modifies this
      ensures fed == old(fed) + bytes
    {
      fed := fed + bytes;
    }
  }
}
