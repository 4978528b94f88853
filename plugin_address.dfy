/** Layout of the shared region and the mailbox protocol that both sides use
    to hand control back and forth: one tag word followed by up to five
    argument words, at a fixed offset in the region. */
module PluginAddress {
  import opened Machine

  /** Address of the shared region in the guest's address space. */
  const BASE_ADDR: u64 := 0x1000_0000
  /** Offset of the mailbox in the region. */
  const CMD_OFFSET: nat := 0x08b0_0000
  /** Offset of the fragment-shader image slot. */
  const FS_OFFSET: nat := 0x08c0_0000
  /** Offset of the vertex-shader image slot. */
  const VS_OFFSET: nat := 0x0910_0000
  /** Size of the region the host allocates. */
  const BUFFER_SIZE: nat := 0x0960_0000
  /** Capacity of one shader image slot (the loader's bounded read). */
  const SLOT_SIZE: nat := 0x50_0000

  /** The mailbox: the tag word and at most five argument words. */
  const MAX_ARGS: nat := 5
  const MAILBOX_WORDS: nat := MAX_ARGS + 1

  const CMD_VS: u64 := 1
  const CMD_FS: u64 := 2
  const CMD_DRAW: u64 := 4
  const CMD_FBADDR: u64 := 8
  const CMD_STOP: u64 := 16
  const CMD_READY: u64 := 32

  /** The mailbox, both shader slots and the guest's view of the region fit
      where they should: nothing overlaps and nothing runs past the end. */
  lemma LayoutDisjoint()
    ensures CMD_OFFSET + 8 * MAILBOX_WORDS <= FS_OFFSET
    ensures FS_OFFSET + SLOT_SIZE == VS_OFFSET
    ensures VS_OFFSET + SLOT_SIZE == BUFFER_SIZE
    ensures BASE_ADDR + BUFFER_SIZE < WORD_MOD
  {
  }

  /** Bitwise and of two unsigned integers, bit by bit from the lowest. */
  function BitAnd(a: nat, b: nat): (r: nat)
    ensures r <= a && r <= b
  {
    if a == 0 || b == 0 then 0
    else 2 * BitAnd(a / 2, b / 2) + (if a % 2 == 1 && b % 2 == 1 then 1 else 0)
  }

  /** The condition the receiver spins on: the tag shares a bit with the mask. */
  predicate Intersects(tag: u64, mask: u64) {
    BitAnd(tag, mask) != 0
  }

  function Pow2(k: nat): (r: nat)
    ensures r > 0
  {
    if k == 0 then 1 else 2 * Pow2(k - 1)
  }

  /** A mask of the n low bits lets bit k through when k < n. */
  lemma {:induction false} BitAndLowBits(k: nat, n: nat)
    requires k < n
    ensures BitAnd(Pow2(k), Pow2(n) - 1) == Pow2(k)
  {
    if k > 0 {
      BitAndLowBits(k - 1, n - 1);
      assert (Pow2(n) - 1) / 2 == Pow2(n - 1) - 1;
    }
  }

  /** Bit k shares nothing with the k bits below it, in either order. */
  lemma {:induction false} BitAndBelow(k: nat)
    ensures BitAnd(Pow2(k), Pow2(k) - 1) == 0
    ensures BitAnd(Pow2(k) - 1, Pow2(k)) == 0
  {
    if k > 0 {
      BitAndBelow(k - 1);
      assert (Pow2(k) - 1) / 2 == Pow2(k - 1) - 1;
    }
  }

  /** Every non-zero tag passes a mask made of itself. */
  lemma {:induction false} BitAndSelf(a: nat)
    ensures BitAnd(a, a) == a
  {
    if a != 0 {
      BitAndSelf(a / 2);
    }
  }

  lemma IntersectsSelf(c: u64)
    requires c != 0
    ensures Intersects(c, c)
  {
    BitAndSelf(c);
  }

  /** Number of argument words that go with a tag. It is not carried in the
      message: both sides agree on it by the tag alone. */
  function ArgCount(tag: u64): (n: nat)
    ensures n <= MAX_ARGS
    ensures n == 0 <==> tag !in {CMD_FBADDR, CMD_DRAW, CMD_VS, CMD_FS, CMD_READY}
    ensures tag == CMD_READY ==> n == MAX_ARGS
  {
    if tag == CMD_FBADDR then 1
    else if tag == CMD_DRAW || tag == CMD_VS then 2
    else if tag == CMD_FS then 3
    else if tag == CMD_READY then 5
    else 0
  }

  predicate IsRegion(s: seq<u8>) {
    |s| == BUFFER_SIZE
  }

  /** Byte offset in the region of mailbox word k (word 0 is the tag). */
  function WordOffset(k: nat): nat {
    CMD_OFFSET + 8 * k
  }

  /** Mailbox word k of region contents s. */
  function WordAt(s: seq<u8>, k: nat): (w: u64)
    requires IsRegion(s) && k < MAILBOX_WORDS
  {
    Pow256Word();
    Decode(s[WordOffset(k)..WordOffset(k) + 8])
  }

  /** The tag word. */
  function Tag(s: seq<u8>): u64
    requires IsRegion(s)
  {
    WordAt(s, 0)
  }

  /** Two region contents that agree on the bytes of word k agree on word k. */
  lemma WordAtFrame(s: seq<u8>, r: seq<u8>, k: nat)
    requires IsRegion(s) && IsRegion(r) && k < MAILBOX_WORDS
    requires forall i :: WordOffset(k) <= i < WordOffset(k) + 8 ==> r[i] == s[i]
    ensures WordAt(r, k) == WordAt(s, k)
  {
    assert r[WordOffset(k)..WordOffset(k) + 8] == s[WordOffset(k)..WordOffset(k) + 8];
  }

  /** s with mailbox word k set to w: a volatile 64-bit store. */
  function WriteWord(s: seq<u8>, k: nat, w: u64): (r: seq<u8>)
    requires IsRegion(s) && k < MAILBOX_WORDS
    ensures IsRegion(r)
    ensures WordAt(r, k) == w
  {
    Pow256Word();
    DecodeEncode(w, 8);
    Splice(s, WordOffset(k), Encode(w, 8))
  }

  /** Setting word k leaves the other words and every byte outside word k
      as they were. */
  lemma WriteWordFrame(s: seq<u8>, k: nat, w: u64)
    requires IsRegion(s) && k < MAILBOX_WORDS
    ensures forall j :: 0 <= j < MAILBOX_WORDS && j != k ==> WordAt(WriteWord(s, k, w), j) == WordAt(s, j)
    ensures forall i :: 0 <= i < |s| && !(WordOffset(k) <= i < WordOffset(k) + 8) ==> WriteWord(s, k, w)[i] == s[i]
  {
    var r := WriteWord(s, k, w);
    Pow256Word();
    SpliceFrame(s, WordOffset(k), Encode(w, 8));
    forall j | 0 <= j < MAILBOX_WORDS && j != k
      ensures WordAt(r, j) == WordAt(s, j)
    {
      WordAtFrame(s, r, j);
    }
  }

  /** The argument words written in order: word i + 1 holds args[i]. */
  function WriteArgs(s: seq<u8>, args: seq<u64>): (r: seq<u8>)
    requires IsRegion(s) && |args| <= MAX_ARGS
    ensures IsRegion(r)
  {
    if args == [] then s
    else WriteWord(WriteArgs(s, args[..|args| - 1]), |args|, args[|args| - 1])
  }

  /** The effect of send_msg: the argument words, then the tag. */
  function SendSpec(s: seq<u8>, c: u64, args: seq<u64>): (r: seq<u8>)
    requires IsRegion(s) && |args| <= MAX_ARGS
    ensures IsRegion(r)
  {
    WriteWord(WriteArgs(s, args), 0, c)
  }

  /** The argument words recv_msg copies out for the tag it observes. */
  function Received(s: seq<u8>): (r: seq<u64>)
    requires IsRegion(s)
    ensures |r| == ArgCount(Tag(s))
    ensures forall i :: 0 <= i < |r| ==> r[i] == WordAt(s, i + 1)
  {
    seq(ArgCount(Tag(s)), i requires 0 <= i < ArgCount(Tag(s)) => WordAt(s, i + 1))
  }

  /** Writing the arguments puts each one in its word, leaves the tag, the
      words past the arguments and every byte outside the argument words alone. */
  lemma {:induction false} WriteArgsPlaces(s: seq<u8>, args: seq<u64>)
    requires IsRegion(s) && |args| <= MAX_ARGS
    ensures forall i :: 0 <= i < |args| ==> WordAt(WriteArgs(s, args), i + 1) == args[i]
    ensures forall j :: j == 0 || |args| < j < MAILBOX_WORDS ==> WordAt(WriteArgs(s, args), j) == WordAt(s, j)
    ensures forall i :: 0 <= i < |s| && !(WordOffset(1) <= i < WordOffset(|args| + 1)) ==> WriteArgs(s, args)[i] == s[i]
  {
    if args != [] {
      var n := |args|;
      var prefix := args[..n - 1];
      var s1 := WriteArgs(s, prefix);
      var r := WriteArgs(s, args);
      WriteArgsPlaces(s, prefix);
      assert r == WriteWord(s1, n, args[n - 1]);
      WriteWordFrame(s1, n, args[n - 1]);
      forall i | 0 <= i < n
        ensures WordAt(r, i + 1) == args[i]
      {
        if i < n - 1 {
          assert WordAt(s1, i + 1) == prefix[i];
        }
      }
      forall j | j == 0 || n < j < MAILBOX_WORDS
        ensures WordAt(r, j) == WordAt(s, j)
      {
        assert WordAt(r, j) == WordAt(s1, j);
      }
      forall i | 0 <= i < |s| && !(WordOffset(1) <= i < WordOffset(n + 1))
        ensures r[i] == s[i]
      {
        assert r[i] == s1[i];
      }
    }
  }

  /** send_msg delivers: the tag is c, argument word i + 1 holds args[i], and
      nothing outside the words it writes changes. */
  lemma SendDelivers(s: seq<u8>, c: u64, args: seq<u64>)
    requires IsRegion(s) && |args| <= MAX_ARGS
    ensures Tag(SendSpec(s, c, args)) == c
    ensures forall i :: 0 <= i < |args| ==> WordAt(SendSpec(s, c, args), i + 1) == args[i]
    ensures forall i :: 0 <= i < |s| && !(CMD_OFFSET <= i < WordOffset(|args| + 1)) ==> SendSpec(s, c, args)[i] == s[i]
  {
    WriteArgsPlaces(s, args);
    WriteWordFrame(WriteArgs(s, args), 0, c);
  }

  /** Round trip: a message sent with tag c and received by a receiver whose
      mask contains c yields c and, for every word both sides agree on, the
      argument that was sent. */
  lemma SendRecvRoundTrip(s: seq<u8>, c: u64, args: seq<u64>, mask: u64)
    requires IsRegion(s) && |args| <= MAX_ARGS
    requires Intersects(c, mask)
    ensures Intersects(Tag(SendSpec(s, c, args)), mask)
    ensures Tag(SendSpec(s, c, args)) == c
    ensures forall i :: 0 <= i < |args| && i < ArgCount(c) ==> Received(SendSpec(s, c, args))[i] == args[i]
  {
    SendDelivers(s, c, args);
  }

  /** The framebuffer-address scenario: FBADDR with 0xABCD arrives as one
      argument, 0xABCD. */
  lemma FbaddrScenario(s: seq<u8>)
    requires IsRegion(s)
    ensures Tag(SendSpec(s, CMD_FBADDR, [0xABCD])) == CMD_FBADDR
    ensures Received(SendSpec(s, CMD_FBADDR, [0xABCD])) == [0xABCD]
  {
    SendRecvRoundTrip(s, CMD_FBADDR, [0xABCD], CMD_FBADDR);
  }

  /** Store one mailbox word as 8 little-endian bytes. */
  method StoreWord(buf: array<u8>, k: nat, w: u64)
    requires buf.Length == BUFFER_SIZE && k < MAILBOX_WORDS
    modifies buf
    ensures buf[..] == WriteWord(old(buf[..]), k, w)
  {
    var bytes := Encode(w, 8);
    var off := WordOffset(k);
    forall j | 0 <= j < 8 {
      buf[off + j] := bytes[j];
    }
    assert buf[..] == Splice(old(buf[..]), off, bytes);
  }

  /** One more argument word written on top of the earlier ones. */
  lemma WriteArgsStep(s: seq<u8>, args: seq<u64>, i: nat)
    requires IsRegion(s) && i < |args| <= MAX_ARGS
    ensures WriteArgs(s, args[..i + 1]) == WriteWord(WriteArgs(s, args[..i]), i + 1, args[i])
    ensures Tag(WriteArgs(s, args[..i + 1])) == Tag(s)
  {
    assert args[..i + 1][..i] == args[..i];
    WriteArgsPlaces(s, args[..i + 1]);
  }

  /** Every region state in the trace is a region showing tag t. */
  ghost predicate ShowsTag(trace: seq<seq<u8>>, t: u64) {
    forall k :: 0 <= k < |trace| ==> IsRegion(trace[k]) && Tag(trace[k]) == t
  }

  lemma ShowsTagAppend(trace: seq<seq<u8>>, s: seq<u8>, t: u64)
    requires ShowsTag(trace, t) && IsRegion(s) && Tag(s) == t
    ensures ShowsTag(trace + [s], t)
  {
  }

  /** The argument loop of send_msg. The ghost trace lists the region after
      each store; none of them changes the tag. */
  method StoreArgs(buf: array<u8>, args: seq<u64>) returns (ghost trace: seq<seq<u8>>)
    requires buf.Length == BUFFER_SIZE && |args| <= MAX_ARGS
    modifies buf
    ensures buf[..] == WriteArgs(old(buf[..]), args)
    ensures |trace| == |args| + 1 && trace[0] == old(buf[..]) && trace[|args|] == buf[..]
    ensures ShowsTag(trace, Tag(old(buf[..])))
  {
    ghost var s0 := buf[..];
    trace := [s0];
    for i := 0 to |args|
      invariant buf[..] == WriteArgs(s0, args[..i])
      invariant |trace| == i + 1 && trace[0] == s0 && trace[i] == buf[..]
      invariant ShowsTag(trace, Tag(s0))
    {
      WriteArgsStep(s0, args, i);
      StoreWord(buf, i + 1, args[i]);
      ghost var now := buf[..];
      ShowsTagAppend(trace, now, Tag(s0));
      trace := trace + [now];
    }
    assert args[..|args|] == args;
  }

  /** send_msg: write the argument words in order, then the tag. The ghost
      trace lists every state a concurrent receiver could observe; each one
      before the last still shows the old tag, and the last write is the tag,
      made once every argument is in place. */
  method Send(buf: array<u8>, c: u64, args: seq<u64>) returns (ghost trace: seq<seq<u8>>)
    requires buf.Length == BUFFER_SIZE && |args| <= MAX_ARGS
    modifies buf
    ensures buf[..] == SendSpec(old(buf[..]), c, args)
    ensures |trace| == |args| + 2 && trace[0] == old(buf[..]) && trace[|args| + 1] == buf[..]
    ensures ShowsTag(trace[..|args| + 1], Tag(old(buf[..])))
    ensures IsRegion(trace[|args|])
    ensures forall i :: 0 <= i < |args| ==> WordAt(trace[|args|], i + 1) == args[i]
    ensures buf[..] == WriteWord(trace[|args|], 0, c)
  {
    ghost var s0 := buf[..];
    trace := StoreArgs(buf, args);
    WriteArgsPlaces(s0, args);
    StoreWord(buf, 0, c);
    trace := trace + [buf[..]];
  }

  /** recv_msg once the spin-wait is over (the tag shares a bit with the
      mask): copy as many argument words as the observed tag implies into
      args, unless args is null, and return the observed tag. */
  method Recv(buf: array<u8>, mask: u64, args: array?<u64>) returns (tag: u64)
    requires buf.Length == BUFFER_SIZE
    requires Intersects(Tag(buf[..]), mask)
    requires args != null ==> args.Length >= ArgCount(Tag(buf[..]))
    modifies args
    ensures tag == Tag(buf[..]) && Intersects(tag, mask)
    ensures args != null ==> args[..ArgCount(tag)] == Received(buf[..])
    ensures args != null ==> forall j :: ArgCount(tag) <= j < args.Length ==> args[j] == old(args[j])
  {
    tag := Tag(buf[..]);
    if args != null {
      var words := Received(buf[..]);
      for i := 0 to |words|
        invariant forall j :: 0 <= j < i ==> args[j] == words[j]
        invariant forall j :: |words| <= j < args.Length ==> args[j] == old(args[j])
      {
        args[i] := words[i];
      }
      assert args[..|words|] == words;
    }
  }
}
