/** The guest side of the bridge: the program the emulated RISC-V core runs.
    It announces itself ready, then waits for one command at a time, carries
    it out and replies ready, until it is told to stop. The framebuffer
    pointer is kept in a variable (the variant without the custom store
    instruction). */
module GuestMain {
  import opened Machine
  import opened PluginAddress
  import opened Graph

  /** The commands the guest waits for: every command but READY. */
  const GUEST_MASK: u64 := 31

  /** The guest's mask lets each of its five commands through. */
  lemma GuestMaskAdmits()
    ensures Intersects(CMD_FBADDR, GUEST_MASK) && Intersects(CMD_DRAW, GUEST_MASK)
    ensures Intersects(CMD_FS, GUEST_MASK) && Intersects(CMD_VS, GUEST_MASK)
    ensures Intersects(CMD_STOP, GUEST_MASK)
  {
    assert Pow2(5) == 32 && Pow2(4) == 16 && Pow2(3) == 8 && Pow2(2) == 4 && Pow2(1) == 2 && Pow2(0) == 1;
    BitAndLowBits(0, 5);
    BitAndLowBits(1, 5);
    BitAndLowBits(2, 5);
    BitAndLowBits(3, 5);
    BitAndLowBits(4, 5);
  }

  /** The guest's mask does not let its own READY reply through, and READY
      waiters do not see the guest's commands. */
  lemma GuestMaskExcludesReady()
    ensures !Intersects(CMD_READY, GUEST_MASK)
    ensures !Intersects(GUEST_MASK, CMD_READY)
  {
    assert Pow2(5) == 32;
    BitAndBelow(5);
  }

  /** The guest's mask is the bitwise or of its five commands, lets each of
      them through, and does not let its own READY reply through. */
  lemma GuestMaskSelects()
    ensures GUEST_MASK == CMD_FBADDR + CMD_DRAW + CMD_FS + CMD_VS + CMD_STOP
    ensures Intersects(CMD_FBADDR, GUEST_MASK) && Intersects(CMD_DRAW, GUEST_MASK)
    ensures Intersects(CMD_FS, GUEST_MASK) && Intersects(CMD_VS, GUEST_MASK)
    ensures Intersects(CMD_STOP, GUEST_MASK)
    ensures !Intersects(CMD_READY, GUEST_MASK) && !Intersects(GUEST_MASK, CMD_READY)
  {
    GuestMaskAdmits();
    GuestMaskExcludesReady();
  }

  /** What a fragment shader hands back: the discard flag it may have set
      through its pointer argument and the colour it returns. */
  datatype FragmentResult = FragmentResult(discard: i32, color: Vec4)

  /** The shaders loaded into the region, as functions of their arguments
      and of the memory they read when they run: the uniforms struct their
      uniforms pointer designates, with the textures of its maps (None for
      a null pointer), and the region's contents. Vertex: entry point,
      attribute pointer, varyings pointer, uniforms pointer. Fragment: entry
      point, varyings pointer, uniforms pointer, discard on entry, backface. */
  datatype Shaders = Shaders(
    vertex: (u64, u64, u64, u64, Option<UniformsView>, seq<u8>) -> Vec4,
    fragment: (u64, u64, u64, Option<UniformsView>, i32, i32, seq<u8>) -> FragmentResult)

  /** The words of a reply carrying a vec4: each float's bits as an int32,
      widened to a word. */
  function Vec4Words(v: Vec4): (ws: seq<u64>)
    ensures |ws| == 4
  {
    [WordOfInt32(Int32OfBits(v.x)), WordOfInt32(Int32OfBits(v.y)),
     WordOfInt32(Int32OfBits(v.z)), WordOfInt32(Int32OfBits(v.w))]
  }

  /** The vec4 the host rebuilds from four reply words: the low four bytes
      of each word read as a float. */
  function Vec4OfWords(ws: seq<u64>): Vec4
    requires |ws| >= 4
  {
    Vec4(Low32(ws[0]), Low32(ws[1]), Low32(ws[2]), Low32(ws[3]))
  }

  /** The reply to a fragment-shader command: discard, then the colour. */
  function FragmentWords(r: FragmentResult): (ws: seq<u64>)
    ensures |ws| == 5
  {
    [WordOfInt32(r.discard)] + Vec4Words(r.color)
  }

  /** A vec4 survives being sent as four words and read back by the host,
      and a fragment result as five. */
  lemma Vec4WordsRoundTrip(v: Vec4)
    ensures Vec4OfWords(Vec4Words(v)) == v
  {
  }

  lemma FragmentWordsRoundTrip(r: FragmentResult)
    ensures Int32OfWord(FragmentWords(r)[0]) == r.discard
    ensures Vec4OfWords(FragmentWords(r)[1..]) == r.color
  {
    assert FragmentWords(r)[1..] == Vec4Words(r.color);
  }

  /** The guest address the pixel at `offset` goes to: color_buffer + 4 *
      offset, with 64-bit pointer arithmetic. */
  function DrawTarget(colorBuffer: u64, offset: i64): u64 {
    (colorBuffer + 4 * offset) % WORD_MOD
  }

  /** The four bytes written lie inside the shared region. */
  predicate DrawFits(colorBuffer: u64, offset: i64) {
    BASE_ADDR <= DrawTarget(colorBuffer, offset) && DrawTarget(colorBuffer, offset) + 4 <= BASE_ADDR + BUFFER_SIZE
  }

  /** Offset in the region of the pixel written. */
  function DrawIndex(colorBuffer: u64, offset: i64): (i: nat)
    requires DrawFits(colorBuffer, offset)
    ensures i + 4 <= BUFFER_SIZE
  {
    DrawTarget(colorBuffer, offset) - BASE_ADDR
  }

  /** The region after a draw: the pixel stored little-endian at its index. */
  function Drawn(s: seq<u8>, colorBuffer: u64, pixel: u32, offset: i64): (r: seq<u8>)
    requires IsRegion(s) && DrawFits(colorBuffer, offset)
    ensures IsRegion(r)
  {
    Splice(s, DrawIndex(colorBuffer, offset), Encode(pixel, 4))
  }

  /** A drawn pixel reads back as itself, no other byte changes, and the
      pixel still reads back after the READY reply unless it was drawn over
      the tag word. */
  lemma {:induction false} DrawnPixel(s: seq<u8>, colorBuffer: u64, pixel: u32, offset: i64)
    requires IsRegion(s) && DrawFits(colorBuffer, offset)
    ensures var i := DrawIndex(colorBuffer, offset);
      Decode(Drawn(s, colorBuffer, pixel, offset)[i..i + 4]) == pixel
    ensures var i := DrawIndex(colorBuffer, offset);
      forall j :: 0 <= j < |s| && !(i <= j < i + 4) ==> Drawn(s, colorBuffer, pixel, offset)[j] == s[j]
    ensures var i := DrawIndex(colorBuffer, offset);
      (i + 4 <= CMD_OFFSET || CMD_OFFSET + 8 <= i) ==>
      Decode(SendSpec(Drawn(s, colorBuffer, pixel, offset), CMD_READY, [])[i..i + 4]) == pixel
  {
    var i := DrawIndex(colorBuffer, offset);
    var d := Drawn(s, colorBuffer, pixel, offset);
    Pow256Word();
    DecodeEncode(pixel, 4);
    assert d[i..i + 4] == Encode(pixel, 4);
    SpliceFrame(s, i, Encode(pixel, 4));
    if i + 4 <= CMD_OFFSET || CMD_OFFSET + 8 <= i {
      ReadyKeeps(d, i);
    }
  }

  /** The READY reply with no arguments rewrites only the tag word. */
  lemma ReadyKeeps(d: seq<u8>, i: nat)
    requires IsRegion(d) && i + 4 <= |d| && (i + 4 <= CMD_OFFSET || CMD_OFFSET + 8 <= i)
    ensures SendSpec(d, CMD_READY, [])[i..i + 4] == d[i..i + 4]
  {
    SendDelivers(d, CMD_READY, []);
  }

  /** What one round of the loop leaves behind: whether the loop ends, the
      framebuffer address and the region's contents. */
  datatype Effect = Effect(stop: bool, colorBuffer: u64, region: seq<u8>)

  /** The round can run: a command for the guest is posted, a shader
      command names a well-formed program, the vertex index is inside the
      attribute array and a pixel lands inside the region. */
  ghost predicate CanServe(s: seq<u8>, colorBuffer: u64, prog: Program?)
    reads prog, if prog == null then null else prog.uniforms
  {
    && IsRegion(s) && Intersects(Tag(s), GUEST_MASK)
    && (Tag(s) == CMD_FS || Tag(s) == CMD_VS ==> prog != null && prog.Valid())
    && (Tag(s) == CMD_VS ==> 0 <= Int32OfWord(WordAt(s, 2)) < NUM_ATTRIBS)
    && (Tag(s) == CMD_DRAW ==> DrawFits(colorBuffer, Int64OfWord(WordAt(s, 2))))
  }

  /** The region after the READY reply with no arguments. */
  function ReadyReply(s: seq<u8>): (r: seq<u8>)
    requires IsRegion(s)
    ensures IsRegion(r) && Tag(r) == CMD_READY
  {
    SendDelivers(s, CMD_READY, []);
    SendSpec(s, CMD_READY, [])
  }

  /** What the fragment shader of the program v computes on region s. */
  function FragmentRun(shaders: Shaders, s: seq<u8>, v: ProgramView, discard: i32, backface: i32): FragmentResult {
    shaders.fragment(v.fragmentShader, v.varyings, v.uniformsPtr, v.uniforms, discard, backface, s)
  }

  /** What the vertex shader of the program v computes on region s for
      attribute i and input varying i. */
  function VertexRun(shaders: Shaders, s: seq<u8>, v: ProgramView, i: i32): Vec4
    requires 0 <= i < NUM_ATTRIBS && |v.attribs| == NUM_ATTRIBS && |v.inVaryings| == MAX_VARYINGS
  {
    shaders.vertex(v.vertexShader, v.attribs[i], v.inVaryings[i], v.uniformsPtr, v.uniforms, s)
  }

  /** The region after the fragment shader of the program v has run on
      region s and its result has been sent back. */
  function FragmentReply(shaders: Shaders, s: seq<u8>, v: ProgramView, discard: i32, backface: i32): (r: seq<u8>)
    requires IsRegion(s)
    ensures IsRegion(r) && Tag(r) == CMD_READY
  {
    SendDelivers(s, CMD_READY, FragmentWords(FragmentRun(shaders, s, v, discard, backface)));
    SendSpec(s, CMD_READY, FragmentWords(FragmentRun(shaders, s, v, discard, backface)))
  }

  /** The region after the vertex shader of the program v has run on
      attribute i and input varying i and its result has been sent back. */
  function VertexReply(shaders: Shaders, s: seq<u8>, v: ProgramView, i: i32): (r: seq<u8>)
    requires IsRegion(s) && 0 <= i < NUM_ATTRIBS
    requires |v.attribs| == NUM_ATTRIBS && |v.inVaryings| == MAX_VARYINGS
    ensures IsRegion(r) && Tag(r) == CMD_READY
  {
    SendDelivers(s, CMD_READY, Vec4Words(VertexRun(shaders, s, v, i)));
    SendSpec(s, CMD_READY, Vec4Words(VertexRun(shaders, s, v, i)))
  }

  /** The effect of one round on region contents s: FBADDR records the
      address, DRAW stores the pixel, FS and VS run a shader on the
      program's pointers, each then replying READY; STOP ends the loop, and
      any other tag leaves everything as it is. */
  function StepEffect(shaders: Shaders, s: seq<u8>, colorBuffer: u64, prog: Program?): Effect
    requires CanServe(s, colorBuffer, prog)
    reads prog, if prog == null then null else prog.uniforms, if prog == null then {} else prog.Footprint()
  {
    var tag := Tag(s);
    if tag == CMD_FBADDR then
      Effect(false, WordAt(s, 1), ReadyReply(s))
    else if tag == CMD_DRAW then
      Effect(false, colorBuffer, ReadyReply(Drawn(s, colorBuffer, Low32(WordAt(s, 1)), Int64OfWord(WordAt(s, 2)))))
    else if tag == CMD_FS then
      Effect(false, colorBuffer, FragmentReply(shaders, s, prog.View(), Int32OfWord(WordAt(s, 2)), Int32OfWord(WordAt(s, 3))))
    else if tag == CMD_VS then
      Effect(false, colorBuffer, VertexReply(shaders, s, prog.View(), Int32OfWord(WordAt(s, 2))))
    else
      Effect(tag == CMD_STOP, colorBuffer, s)
  }

  /** Every round the guest serves ends with READY posted, except STOP,
      which ends the loop and leaves the region alone; only FBADDR moves the
      framebuffer. */
  lemma StepEffectReplies(shaders: Shaders, s: seq<u8>, colorBuffer: u64, prog: Program?)
    requires CanServe(s, colorBuffer, prog)
    ensures var e := StepEffect(shaders, s, colorBuffer, prog);
      && IsRegion(e.region)
      && (e.stop <==> Tag(s) == CMD_STOP)
      && (Tag(s) in {CMD_FBADDR, CMD_DRAW, CMD_FS, CMD_VS} ==> Tag(e.region) == CMD_READY)
      && (Tag(s) !in {CMD_FBADDR, CMD_DRAW, CMD_FS, CMD_VS} ==> e.region == s)
      && (Tag(s) != CMD_FBADDR ==> e.colorBuffer == colorBuffer)
  {
  }

  /** A posted FS command for a well-formed program can be served, and the
      round runs the fragment shader and replies with its result. */
  lemma FragmentRound(shaders: Shaders, s: seq<u8>, colorBuffer: u64, prog: Program)
    requires IsRegion(s) && Tag(s) == CMD_FS && prog.Valid()
    ensures CanServe(s, colorBuffer, prog)
    ensures StepEffect(shaders, s, colorBuffer, prog)
      == Effect(false, colorBuffer, FragmentReply(shaders, s, prog.View(), Int32OfWord(WordAt(s, 2)), Int32OfWord(WordAt(s, 3))))
  {
    GuestMaskSelects();
  }

  /** A posted VS command for a well-formed program and an attribute index
      in range can be served, and the round runs the vertex shader and
      replies with its result. */
  lemma VertexRound(shaders: Shaders, s: seq<u8>, colorBuffer: u64, prog: Program)
    requires IsRegion(s) && Tag(s) == CMD_VS && prog.Valid() && 0 <= Int32OfWord(WordAt(s, 2)) < NUM_ATTRIBS
    ensures CanServe(s, colorBuffer, prog)
    ensures StepEffect(shaders, s, colorBuffer, prog)
      == Effect(false, colorBuffer, VertexReply(shaders, s, prog.View(), Int32OfWord(WordAt(s, 2))))
  {
    GuestMaskSelects();
  }

  /** A posted FBADDR command can be served: the round records its
      argument as the framebuffer address and replies ready. */
  lemma FbaddrRound(shaders: Shaders, s: seq<u8>, colorBuffer: u64)
    requires IsRegion(s) && Tag(s) == CMD_FBADDR
    ensures CanServe(s, colorBuffer, null)
    ensures StepEffect(shaders, s, colorBuffer, null) == Effect(false, WordAt(s, 1), ReadyReply(s))
  {
    GuestMaskSelects();
  }

  /** A posted DRAW command whose pixel lands in the region can be served:
      the round stores the pixel and replies ready. */
  lemma DrawRound(shaders: Shaders, s: seq<u8>, colorBuffer: u64)
    requires IsRegion(s) && Tag(s) == CMD_DRAW && DrawFits(colorBuffer, Int64OfWord(WordAt(s, 2)))
    ensures CanServe(s, colorBuffer, null)
    ensures StepEffect(shaders, s, colorBuffer, null)
      == Effect(false, colorBuffer, ReadyReply(Drawn(s, colorBuffer, Low32(WordAt(s, 1)), Int64OfWord(WordAt(s, 2)))))
  {
    GuestMaskSelects();
  }

  /** A posted STOP command can always be served: the round ends the loop
      and leaves the region and the framebuffer address alone. */
  lemma StopRound(shaders: Shaders, s: seq<u8>, colorBuffer: u64, prog: Program?)
    requires IsRegion(s) && Tag(s) == CMD_STOP
    ensures CanServe(s, colorBuffer, prog)
    ensures StepEffect(shaders, s, colorBuffer, prog) == Effect(true, colorBuffer, s)
  {
    GuestMaskSelects();
  }

  /** The guest program: the region as seen at BASE_ADDR, the shaders
      loaded into it, and color_buffer, the guest address of the
      framebuffer. */
  class Guest {
    const region: array<u8>
    const shaders: Shaders
    var colorBuffer: u64

    /** color_buffer starts out null. */
    constructor (region: array<u8>, shaders: Shaders)
      ensures this.region == region && this.shaders == shaders && colorBuffer == 0
    {
      this.region := region;
      this.shaders := shaders;
      colorBuffer := 0;
    }

    /** The first statement of main: announce readiness. */
    method Start()
      requires region.Length == BUFFER_SIZE
      modifies region
      ensures region[..] == SendSpec(old(region[..]), CMD_READY, [])
      ensures Tag(region[..]) == CMD_READY
    {
      ghost var trace := Send(region, CMD_READY, []);
      SendDelivers(old(region[..]), CMD_READY, []);
    }

    /** update_fbaddr without the custom instruction. */
    method UpdateFbaddr(addr: u64)
      modifies this`colorBuffer
      ensures colorBuffer == addr
    {
      colorBuffer := addr;
    }

    /** draw without the custom instruction: the pixel's four bytes are
        copied to color_buffer + 4 * offset. */
    method Draw(pixel: u32, offset: i64)
      requires region.Length == BUFFER_SIZE && DrawFits(colorBuffer, offset)
      modifies region
      ensures region[..] == Drawn(old(region[..]), colorBuffer, pixel, offset)
    {
      var at := DrawIndex(colorBuffer, offset);
      var bytes := Encode(pixel, 4);
      forall i | at <= i < at + 4 {
        region[i] := bytes[i - at];
      }
      assert region[..] == Splice(old(region[..]), at, bytes);
    }
  
    /** The FBADDR case: record the framebuffer address and reply ready. */
    method ServeFbaddr(addr: u64)
      requires region.Length == BUFFER_SIZE
      modifies this`colorBuffer, region
      ensures colorBuffer == addr
      ensures region[..] == ReadyReply(old(region[..]))
    {
      UpdateFbaddr(addr);
      ghost var trace := Send(region, CMD_READY, []);
    }

    /** The DRAW case: store the pixel and reply ready. */
    method ServeDraw(pixel: u32, offset: i64)
      requires region.Length == BUFFER_SIZE && DrawFits(colorBuffer, offset)
      modifies region
      ensures region[..] == ReadyReply(Drawn(old(region[..]), colorBuffer, pixel, offset))
    {
      Draw(pixel, offset);
      ghost var trace := Send(region, CMD_READY, []);
    }

    /** The FS case: run the program's fragment shader on its varyings and
        uniforms and reply with discard and the colour. */
    method ServeFragment(prog: Program, discard: i32, backface: i32)
      requires region.Length == BUFFER_SIZE
      modifies region
      ensures region[..] == FragmentReply(shaders, old(region[..]), old(prog.View()), discard, backface)
    {
      var r := shaders.fragment(prog.fragmentShader, prog.shaderVaryings, prog.shaderUniforms,
        prog.View().uniforms, discard, backface, region[..]);
      ghost var trace := Send(region, CMD_READY, FragmentWords(r));
    }

    /** The VS case: run the program's vertex shader on attribute i and
        input varying i and reply with the position. */
    method ServeVertex(prog: Program, i: i32)
      requires region.Length == BUFFER_SIZE && prog.Valid() && 0 <= i < NUM_ATTRIBS
      modifies region
      ensures region[..] == VertexReply(shaders, old(region[..]), old(prog.View()), i)
    {
      var rv := shaders.vertex(prog.vertexShader, prog.shaderAttribs[i], prog.inVaryings[i],
        prog.shaderUniforms, prog.View().uniforms, region[..]);
      ghost var trace := Send(region, CMD_READY, Vec4Words(rv));
    }

    /** The switch of main's loop on a received command cmd with argument
        words a0, a1, a2 (those beyond the command's count are not used). */
    method Dispatch(cmd: u64, a0: u64, a1: u64, a2: u64, prog: Program?) returns (stop: bool)
      requires region.Length == BUFFER_SIZE && CanServe(region[..], colorBuffer, prog)
      requires cmd == Tag(region[..])
      requires ArgCount(cmd) >= 1 ==> a0 == WordAt(region[..], 1)
      requires ArgCount(cmd) >= 2 ==> a1 == WordAt(region[..], 2)
      requires ArgCount(cmd) >= 3 ==> a2 == WordAt(region[..], 3)
      modifies this, region
      ensures Effect(stop, colorBuffer, region[..]) == old(StepEffect(shaders, region[..], colorBuffer, prog))
    {
      stop := false;
      if cmd == CMD_FBADDR {
        ServeFbaddr(a0);
      } else if cmd == CMD_DRAW {
        ServeDraw(Low32(a0), Int64OfWord(a1));
      } else if cmd == CMD_FS {
        ServeFragment(prog, Int32OfWord(a1), Int32OfWord(a2));
      } else if cmd == CMD_VS {
        ServeVertex(prog, Int32OfWord(a1));
      } else if cmd == CMD_STOP {
        stop := true;
      }
    }

    /** The wait at the top of main's loop, once recv_msg has seen a
        command for the guest: a zeroed five-word argument buffer is filled
        with the command's arguments; the first three are returned. */
    method Await() returns (cmd: u64, a0: u64, a1: u64, a2: u64)
      requires region.Length == BUFFER_SIZE && Intersects(Tag(region[..]), GUEST_MASK)
      ensures cmd == Tag(region[..])
      ensures ArgCount(cmd) >= 1 ==> a0 == WordAt(region[..], 1)
      ensures ArgCount(cmd) >= 2 ==> a1 == WordAt(region[..], 2)
      ensures ArgCount(cmd) >= 3 ==> a2 == WordAt(region[..], 3)
    {
      var args := new u64[MAX_ARGS](_ => 0);
      cmd := Recv(region, GUEST_MASK, args);
      ghost var words := Received(region[..]);
      assert ArgCount(cmd) >= 1 ==> args[0] == words[0];
      assert ArgCount(cmd) >= 2 ==> args[1] == words[1];
      assert ArgCount(cmd) >= 3 ==> args[2] == words[2];
      a0, a1, a2 := args[0], args[1], args[2];
    }

    /** One round of main's loop, once recv_msg has seen a command for the
        guest (the spin itself is the precondition). prog is the program
        args[0] points to. Returns whether the loop ends. */
    method Step(prog: Program?) returns (stop: bool)
      requires region.Length == BUFFER_SIZE && CanServe(region[..], colorBuffer, prog)
      modifies this, region
      ensures Effect(stop, colorBuffer, region[..]) == old(StepEffect(shaders, region[..], colorBuffer, prog))
    {
      var cmd, a0, a1, a2 := Await();
      stop := Dispatch(cmd, a0, a1, a2, prog);
    }
  }
}
