/** Bytes, and the mutable byte strings the codecs write to. */
module Bytes {
  type byte = x: int | 0 <= x < 256

  class Buffer {
    var bytes: seq<byte>

    constructor (initial: seq<byte>)
      ensures bytes == initial
    {
      bytes := initial;
    }
  }
}
