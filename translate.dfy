/** Scalar address translation between the host's view of the shared region
    (based at the host address of its buffer) and the guest's view (based at
    BASE_ADDR). Pointers are 64-bit words; 0 is null. */
module Translate {
  import opened Machine
  import opened PluginAddress

  /** The host buffer is a real allocation: non-null, and the whole region
      lies below 2^64. */
  predicate HostBaseOk(h: u64) {
    0 < h && h + BUFFER_SIZE <= WORD_MOD
  }

  datatype Space = HostSpace | GuestSpace {
    function Other(): Space {
      if this == HostSpace then GuestSpace else HostSpace
    }
  }

  /** Base address of the region in a space, given the host buffer address h. */
  function Base(h: u64, sp: Space): u64 {
    if sp == HostSpace then h else BASE_ADDR
  }

  /** p points into the region as seen from space sp. */
  predicate InRegion(h: u64, sp: Space, p: u64) {
    Base(h, sp) <= p < Base(h, sp) + BUFFER_SIZE
  }

  /** p is null or points into the region as seen from space sp. */
  predicate PtrIn(h: u64, sp: Space, p: u64) {
    p == 0 || InRegion(h, sp, p)
  }

  /** Host to guest (conv_addr_to_spike): null stays null, anything else is
      moved by the distance between the two bases, modulo 2^64. */
  function ToGuest(h: u64, p: u64): (r: u64)
    ensures p == 0 ==> r == 0
    ensures HostBaseOk(h) && InRegion(h, HostSpace, p) ==> InRegion(h, GuestSpace, r) && r - BASE_ADDR == p - h
  {
    if p == 0 then 0 else (p - h + BASE_ADDR) % WORD_MOD
  }

  /** Guest to host (conv_addr_to_host): the inverse move. */
  function ToHost(h: u64, p: u64): (r: u64)
    ensures p == 0 ==> r == 0
    ensures HostBaseOk(h) && InRegion(h, GuestSpace, p) ==> InRegion(h, HostSpace, r) && r - h == p - BASE_ADDR
  {
    if p == 0 then 0 else (p - BASE_ADDR + h) % WORD_MOD
  }

  /** Translation into space `to`. */
  function Conv(h: u64, to: Space, p: u64): u64 {
    if to == GuestSpace then ToGuest(h, p) else ToHost(h, p)
  }

  /** Translating a pointer of one space into the other and back gives it
      back, and the translation is a pointer of the other space. */
  lemma ConvRoundTrip(h: u64, to: Space, p: u64)
    requires HostBaseOk(h) && PtrIn(h, to.Other(), p)
    ensures PtrIn(h, to, Conv(h, to, p))
    ensures (Conv(h, to, p) == 0) == (p == 0)
    ensures Conv(h, to.Other(), Conv(h, to, p)) == p
  {
  }

  /** The word a pointer to the host address a holds when it is written in
      space sp: the address itself on the host side, its translation on the
      guest side. */
  function Seen(h: u64, sp: Space, a: u64): u64 {
    if sp == HostSpace then a else ToGuest(h, a)
  }

  /** Translation into space `to` takes a pointer seen from the other space
      to the same address seen from `to`. */
  lemma SeenConv(h: u64, to: Space, a: u64)
    requires HostBaseOk(h) && InRegion(h, HostSpace, a)
    ensures Conv(h, to, Seen(h, to.Other(), a)) == Seen(h, to, a)
    ensures InRegion(h, to, Seen(h, to, a))
  {
  }

  /** Translation applied n times (what happens to a pointer reached through
      n aliases of the same object during one pass). */
  function ConvN(h: u64, to: Space, p: u64, n: nat): u64 {
    if n == 0 then p else Conv(h, to, ConvN(h, to, p, n - 1))
  }

  /** Translation of every element. */
  function ConvSeq(h: u64, to: Space, s: seq<u64>): (r: seq<u64>)
    ensures |r| == |s|
    ensures forall i :: 0 <= i < |s| ==> r[i] == Conv(h, to, s[i])
  {
    seq(|s|, i requires 0 <= i < |s| => Conv(h, to, s[i]))
  }

  predicate AllIn(h: u64, sp: Space, s: seq<u64>) {
    forall i :: 0 <= i < |s| ==> PtrIn(h, sp, s[i])
  }

  lemma ConvSeqRoundTrip(h: u64, to: Space, s: seq<u64>)
    requires HostBaseOk(h) && AllIn(h, to.Other(), s)
    ensures AllIn(h, to, ConvSeq(h, to, s))
    ensures ConvSeq(h, to.Other(), ConvSeq(h, to, s)) == s
  {
    forall i | 0 <= i < |s|
      ensures PtrIn(h, to, ConvSeq(h, to, s)[i]) && ConvSeq(h, to.Other(), ConvSeq(h, to, s))[i] == s[i]
    {
      ConvRoundTrip(h, to, s[i]);
    }
  }
}
