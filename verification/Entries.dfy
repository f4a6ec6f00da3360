/** The entries of HELLO and TC bodies: an address followed by link quality data. */
module Entries {
  import opened Framing

  /** Sizes of an address and of the link quality data. */
  datatype Sizes = Sizes(ip: nat, lq: nat)

  function EntrySize(z: Sizes): nat {
    z.ip + z.lq
  }

  function EntriesSize(z: Sizes, n: nat): nat {
    if n == 0 then 0 else EntrySize(z) + EntriesSize(z, n - 1)
  }

  predicate Sized(z: Sizes, addr: seq<Byte>, lq: seq<Byte>) {
    |addr| == z.ip && |lq| == z.lq
  }
}
