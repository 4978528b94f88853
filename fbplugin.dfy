/** The host side of the bridge: the plugin that owns the shared region, its
    bump arena, the raw loads and stores the emulator makes into it, the
    deep translation of a program graph between the two address spaces, the
    shader image loader and the blocking calls that hand work to the guest. */
module FbPlugin {
  import opened Machine
  import opened PluginAddress
  import opened Translate
  import opened Graph
  import opened GuestMain

  /** The arena's alignment. */
  const ALIGNMENT: nat := 16

  /** The cursor rounded up to the next multiple of 16. */
  function AlignUp(n: nat): (r: nat)
    ensures r % ALIGNMENT == 0 && n <= r < n + ALIGNMENT
    ensures n % ALIGNMENT == 0 ==> r == n
  {
    if n % ALIGNMENT != 0 then n + (ALIGNMENT - n % ALIGNMENT) else n
  }

  /** Offsets handed out by successive allocations of the given sizes,
      starting from cursor c. */
  function Offsets(c: nat, sizes: seq<nat>): seq<nat>
    decreases |sizes|
  {
    if sizes == [] then [] else [AlignUp(c)] + Offsets(AlignUp(c) + sizes[0], sizes[1..])
  }

  /** The cursor after those allocations. */
  function CursorAfter(c: nat, sizes: seq<nat>): nat
    decreases |sizes|
  {
    if sizes == [] then c else CursorAfter(AlignUp(c) + sizes[0], sizes[1..])
  }

  /** Any sequence of allocations hands out 16-aligned blocks at or after the
      starting cursor, in increasing order, each ending before the next one
      starts and all ending by the final cursor: blocks never overlap. */
  lemma {:induction false} OffsetsDisjoint(c: nat, sizes: seq<nat>)
    ensures |Offsets(c, sizes)| == |sizes|
    ensures c <= CursorAfter(c, sizes)
    ensures forall k :: 0 <= k < |sizes| ==> Offsets(c, sizes)[k] % ALIGNMENT == 0
    ensures forall k :: 0 <= k < |sizes| ==> c <= Offsets(c, sizes)[k]
    ensures forall k :: 0 <= k < |sizes| ==> Offsets(c, sizes)[k] + sizes[k] <= CursorAfter(c, sizes)
    ensures forall j, k :: 0 <= j < k < |sizes| ==> Offsets(c, sizes)[j] + sizes[j] <= Offsets(c, sizes)[k]
    decreases |sizes|
  {
    if sizes != [] {
      var a := AlignUp(c);
      var rest := sizes[1..];
      OffsetsDisjoint(a + sizes[0], rest);
      assert Offsets(c, sizes) == [a] + Offsets(a + sizes[0], rest);
      assert forall k :: 1 <= k < |sizes| ==> sizes[k] == rest[k - 1];
    }
  }

  /** Slot of the region a shader image is copied to: the fragment-shader
      slot for type 0, the vertex-shader slot otherwise. */
  function ShaderSlot(sdrType: int): (off: nat)
    ensures off + SLOT_SIZE <= BUFFER_SIZE
    ensures CMD_OFFSET + 8 * MAILBOX_WORDS <= off
  {
    if sdrType != 0 then VS_OFFSET else FS_OFFSET
  }

  /** Size of an Elf64_Ehdr and the offset of its e_entry field (System V
      ABI, "ELF Header"). */
  const ELF64_EHDR_SIZE: nat := 64
  const E_ENTRY_OFFSET: nat := 24
  /** The virtual address the shader images are linked to start at. */
  const LINK_BASE: nat := 0x10000

  /** The four identification bytes 0x7f 'E' 'L' 'F'. */
  predicate HasElfMagic(file: seq<u8>)
    requires |file| >= 4
  {
    file[0] == 0x7f && file[1] == 0x45 && file[2] == 0x4c && file[3] == 0x46
  }

  /** The header checks of load_shader: the file opened, holds a whole ELF-64
      header and starts with the magic bytes. */
  predicate HeaderAccepted(file: Option<seq<u8>>) {
    file.Some? && |file.value| >= ELF64_EHDR_SIZE && HasElfMagic(file.value)
  }

  /** The e_entry field of the header. */
  function ElfEntry(file: seq<u8>): (e: u64)
    requires |file| >= ELF64_EHDR_SIZE
  {
    Pow256Word();
    Decode(file[E_ENTRY_OFFSET..E_ENTRY_OFFSET + 8])
  }

  /** A stream is at end of file after a bounded read of SLOT_SIZE bytes
      exactly when the read ran short, i.e. the file is shorter than the
      slot. */
  predicate ReadReachesEof(file: seq<u8>) {
    |file| < SLOT_SIZE
  }

  /** The pointer load_shader returns: null on every failure, otherwise the
      host address of the entry point inside the slot. */
  function LoadResult(h: u64, file: Option<seq<u8>>, sdrType: int): (r: u64)
    ensures !HeaderAccepted(file) ==> r == 0
    ensures HeaderAccepted(file) && !ReadReachesEof(file.value) ==> r == 0
    ensures HeaderAccepted(file) && ReadReachesEof(file.value) ==>
      r == (h + ShaderSlot(sdrType) + ElfEntry(file.value) - LINK_BASE) % WORD_MOD
  {
    if !HeaderAccepted(file) || !ReadReachesEof(file.value) then 0
    else (h + ShaderSlot(sdrType) + ElfEntry(file.value) - LINK_BASE) % WORD_MOD
  }

  /** The number of bytes the bounded read copies into the slot. */
  function CopiedLength(file: seq<u8>): (n: nat)
    ensures n <= SLOT_SIZE && n <= |file|
    ensures n == |file| || n == SLOT_SIZE
  {
    if |file| < SLOT_SIZE then |file| else SLOT_SIZE
  }

  /** Where a loaded shader's entry point lands: for an image linked at
      LINK_BASE whose entry lies inside its slot, the pointer load_shader
      returns is inside the region and the guest sees it at the same place
      inside the slot. */
  lemma LoadedEntryInRegion(h: u64, file: seq<u8>, sdrType: int)
    requires HostBaseOk(h) && HeaderAccepted(Some(file)) && ReadReachesEof(file)
    requires LINK_BASE <= ElfEntry(file) < LINK_BASE + SLOT_SIZE
    ensures var r := LoadResult(h, Some(file), sdrType);
      InRegion(h, HostSpace, r) && r - h == ShaderSlot(sdrType) + ElfEntry(file) - LINK_BASE
      && ToGuest(h, r) == BASE_ADDR + ShaderSlot(sdrType) + ElfEntry(file) - LINK_BASE
  {
  }

  /** The capacity invoke_vertex_shader gives its reply buffer as written. */
  const VERTEX_REPLY_CAPACITY_AS_WRITTEN: nat := 4

  /** The reply buffer of a call must hold every argument word recv_msg
      copies for the tag it sees. */
  predicate ReplyFits(capacity: nat, tag: u64) {
    ArgCount(tag) <= capacity
  }

  /** recv_msg copies five words for any READY, so invoke_vertex_shader's
      four-word buffer is overrun by one word, while five words fit. */
  lemma VertexReplyOverflow()
    ensures !ReplyFits(VERTEX_REPLY_CAPACITY_AS_WRITTEN, CMD_READY)
    ensures ReplyFits(MAX_ARGS, CMD_READY)
  {
  }

  /** After the pass as written, the buffer of the texture of map j has been
      translated once per map designating that texture. */
  lemma AsWrittenBuffer(h: u64, to: Space, u: Uniforms, tv0: seq<Option<TextureView>>, j: nat)
    requires |tv0| == NUM_MAPS && j < NUM_MAPS && u.Tex(j) != null
    requires TexturesAfter(h, to, u, tv0, NUM_MAPS, false)
    ensures tv0[j].Some?
    ensures u.Tex(j).buffer == ConvN(h, to, tv0[j].value.buffer, u.Refs(u.Tex(j)))
  {
    assert TextureAfter(h, to, u, tv0, j, NUM_MAPS, false);
    AppliedAsWritten(u, u.Tex(j));
  }

  /** After the corrected pass every texture buffer is translated exactly
      once, however the maps alias. */
  lemma CorrectedBuffer(h: u64, to: Space, u: Uniforms, tv0: seq<Option<TextureView>>, j: nat)
    requires |tv0| == NUM_MAPS && j < NUM_MAPS && u.Tex(j) != null
    requires TexturesAfter(h, to, u, tv0, NUM_MAPS, true)
    ensures tv0[j].Some?
    ensures u.Tex(j).buffer == Conv(h, to, tv0[j].value.buffer)
  {
    assert TextureAfter(h, to, u, tv0, j, NUM_MAPS, true);
    assert u.Tex(j) in u.Textures();
    AppliedOnce(u, u.Tex(j));
    assert ConvN(h, to, tv0[j].value.buffer, 1) == Conv(h, to, tv0[j].value.buffer);
  }

  /** A texture buffer translated twice into the guest's space is not where
      the guest expects it, unless the host happens to map the region at
      BASE_ADDR too. */
  lemma AliasedBufferMisplaced(h: u64, b: u64)
    requires HostBaseOk(h) && h != BASE_ADDR && InRegion(h, HostSpace, b)
    ensures ConvN(h, GuestSpace, b, 2) != ToGuest(h, b)
  {
    var g := ToGuest(h, b);
    assert ConvN(h, GuestSpace, b, 1) == g;
    assert ConvN(h, GuestSpace, b, 2) == ToGuest(h, g);
  }

  /** On the way back the pass as written translates that buffer twice
      again, which restores it unless the guest-side value is null. */
  lemma AliasedBufferReturns(h: u64, b: u64)
    requires HostBaseOk(h) && InRegion(h, HostSpace, b) && ConvN(h, GuestSpace, b, 2) != 0
    ensures ConvN(h, HostSpace, ConvN(h, GuestSpace, b, 2), 2) == b
  {
    var g := ToGuest(h, b);
    var g2 := ToGuest(h, g);
    assert ConvN(h, GuestSpace, b, 1) == g;
    assert ConvN(h, GuestSpace, b, 2) == g2;
    assert ToHost(h, g2) == g;
    assert ConvN(h, HostSpace, g2, 1) == g;
  }

  /** A concrete instance: with the host buffer at 0x2000_0000, a texture
      buffer at the start of the region shared by two maps becomes null in
      the guest's eyes, and the return trip leaves it null. */
  lemma AliasedBufferLost()
    ensures HostBaseOk(0x2000_0000)
    ensures ConvN(0x2000_0000, GuestSpace, 0x2000_0000, 2) == 0
    ensures ConvN(0x2000_0000, HostSpace, ConvN(0x2000_0000, GuestSpace, 0x2000_0000, 2), 2) == 0
  {
    assert ConvN(0x2000_0000, GuestSpace, 0x2000_0000, 1) == BASE_ADDR;
  }

  /** Once invoke_update_fbaddr has given the guest the translation of a
      host framebuffer address fb, a pixel the guest draws at offset lands
      at the region index, and so at the host address, fb + 4 * offset: the
      place the host would have written it itself. */
  lemma DrawLandsAtHostPixel(h: u64, fb: u64, offset: i64)
    requires HostBaseOk(h) && InRegion(h, HostSpace, fb) && DrawFits(ToGuest(h, fb), offset)
    ensures DrawIndex(ToGuest(h, fb), offset) == (fb - h + 4 * offset) % WORD_MOD
    ensures ToHost(h, DrawTarget(ToGuest(h, fb), offset)) == (fb + 4 * offset) % WORD_MOD
  {
    var g := ToGuest(h, fb);
    var d := fb - h + 4 * offset;
    var i := DrawIndex(g, offset);
    assert g == fb - h + BASE_ADDR;
    assert (d + BASE_ADDR) % WORD_MOD == i + BASE_ADDR;
    assert (d - i) % WORD_MOD == 0;
    ModOfCongruent(d, i);
  }

  /** A value in [0, 2^64) congruent to d modulo 2^64 is d modulo 2^64. */
  lemma ModOfCongruent(d: int, i: int)
    requires 0 <= i < WORD_MOD && (d - i) % WORD_MOD == 0
    ensures i == d % WORD_MOD
  {
    var q := (d - i) / WORD_MOD;
    assert d == q * WORD_MOD + i;
  }

  /** The program graph, the region and the guest are distinct objects. */
  lemma GraphApart(p: Program, region: array<u8>, guest: Guest)
    ensures region !in p.Footprint() && guest !in p.Footprint()
  {
  }

  /** The host side: the region, with its address in the host's space, and
      the arena cursor (buffer_size). */
  class Plugin {
    const host: u64
    const buffer: array<u8>
    var cursor: nat

    ghost predicate Valid() {
      HostBaseOk(host) && buffer.Length == BUFFER_SIZE
    }

    /** The region comes from an allocation at host address `host`. */
    constructor (host: u64)
      requires HostBaseOk(host)
      ensures Valid() && this.host == host && cursor == 0 && fresh(buffer)
    {
      this.host := host;
      buffer := new u8[BUFFER_SIZE](_ => 0);
      cursor := 0;
    }

    /** load: the emulator reads len bytes of the region from offset on. */
    method Load(offset: nat, len: nat) returns (bytes: seq<u8>)
      requires Valid() && offset + len <= buffer.Length
      ensures |bytes| == len
      ensures forall i :: 0 <= i < len ==> bytes[i] == buffer[offset + i]
    {
      bytes := buffer[offset..offset + len];
    }

    /** store: the emulator writes bytes into the region from offset on;
        nothing else in the region changes, so a later Load of the same
        range gives the bytes back. */
    method Store(offset: nat, bytes: seq<u8>)
      requires Valid() && offset + |bytes| <= buffer.Length
      modifies buffer
      ensures buffer[..] == Splice(old(buffer[..]), offset, bytes)
    {
      forall i | offset <= i < offset + |bytes| {
        buffer[i] := bytes[i - offset];
      }
      assert buffer[..] == Splice(old(buffer[..]), offset, bytes);
    }

    /** allocate: round the cursor up to 16 and hand out the block there.
        There is no check against the size of the region. */
    method Allocate(requestedSize: nat) returns (addr: u64)
      requires Valid()
      modifies this`cursor
      ensures cursor == AlignUp(old(cursor)) + requestedSize
      ensures addr == (host + AlignUp(old(cursor))) % WORD_MOD
      ensures (addr - host) % ALIGNMENT == 0
    {
      if cursor % ALIGNMENT != 0 {
        cursor := cursor + (ALIGNMENT - cursor % ALIGNMENT);
      }
      addr := (host + cursor) % WORD_MOD;
      cursor := cursor + requestedSize;
    }

    /** deallocate: memory is never reclaimed. */
    method Deallocate(ptr: u64)
      ensures cursor == old(cursor)
    {
    }

    /** One map of structs_to_spike: the texture's buffer is translated
        through the map while it still holds a host address (unless the
        corrected pass has already translated that texture), then the map
        pointer itself. */
    method MapToSpike(u: Uniforms, k: nat, onePerTexture: bool, ghost tv0: seq<Option<TextureView>>)
      requires Valid() && k < NUM_MAPS
      requires u.Tex(k) == null ==> u.Maps()[k] == 0
      requires u.Tex(k) != null ==> InRegion(host, HostSpace, u.Tex(k).addr) && u.Maps()[k] == u.Tex(k).addr
      requires TexturesAfter(host, GuestSpace, u, tv0, k, onePerTexture)
      modifies u, u.Tex(k)
      ensures u.Maps() == old(u.Maps())[k := ToGuest(host, old(u.Maps()[k]))]
      ensures (u.Maps()[k] == 0) == (old(u.Maps()[k]) == 0)
      ensures u.jointMatrices == old(u.jointMatrices) && u.jointNMatrices == old(u.jointNMatrices)
      ensures TexturesAfter(host, GuestSpace, u, tv0, k + 1, onePerTexture)
    {
      var tex := u.Tex(k);
      ghost var written := u.Maps()[k] != 0 && !Skipped(u, k, onePerTexture);
      if u.Maps()[k] != 0 && !Skipped(u, k, onePerTexture) {
        // the buffer is reached through the map, which still holds the
        // texture's host address
        assert u.Maps()[k] == tex.addr;
        tex.buffer := ToGuest(host, tex.buffer);
      }
      u.SetMap(k, ToGuest(host, u.Maps()[k]));
      ghost var next := k + 1;
      forall j | 0 <= j < NUM_MAPS
        ensures TextureAfter(host, GuestSpace, u, tv0, j, next, onePerTexture)
      {
        assert old(TextureAfter(host, GuestSpace, u, tv0, j, k, onePerTexture));
        var t := u.Tex(j);
        if t != null {
          var n := Applied(u, t, k, onePerTexture);
          if t == tex && written {
            assert Applied(u, t, next, onePerTexture) == n + 1;
            assert t.buffer == Conv(host, GuestSpace, old(t.buffer));
          } else {
            assert Applied(u, t, next, onePerTexture) == n;
            assert t.buffer == old(t.buffer);
          }
        }
      }
    }

    /** One map of structs_to_host: the map pointer is translated first and
        the texture's buffer is then translated through its new value. */
    method MapToHost(u: Uniforms, k: nat, onePerTexture: bool, ghost tv0: seq<Option<TextureView>>)
      requires Valid() && k < NUM_MAPS
      requires u.Tex(k) == null ==> u.Maps()[k] == 0
      requires u.Tex(k) != null ==> InRegion(host, HostSpace, u.Tex(k).addr) && u.Maps()[k] == ToGuest(host, u.Tex(k).addr)
      requires TexturesAfter(host, HostSpace, u, tv0, k, onePerTexture)
      modifies u, u.Tex(k)
      ensures u.Maps() == old(u.Maps())[k := ToHost(host, old(u.Maps()[k]))]
      ensures (u.Maps()[k] == 0) == (old(u.Maps()[k]) == 0)
      ensures u.jointMatrices == old(u.jointMatrices) && u.jointNMatrices == old(u.jointNMatrices)
      ensures TexturesAfter(host, HostSpace, u, tv0, k + 1, onePerTexture)
    {
      var tex := u.Tex(k);
      var m := ToHost(host, u.Maps()[k]);
      u.SetMap(k, m);
      ghost var written := m != 0 && !Skipped(u, k, onePerTexture);
      if m != 0 && !Skipped(u, k, onePerTexture) {
        // the buffer is reached through the translated map, which holds the
        // texture's host address again
        ConvRoundTrip(host, GuestSpace, tex.addr);
        assert m == tex.addr;
        tex.buffer := ToHost(host, tex.buffer);
      }
      ghost var next := k + 1;
      forall j | 0 <= j < NUM_MAPS
        ensures TextureAfter(host, HostSpace, u, tv0, j, next, onePerTexture)
      {
        assert old(TextureAfter(host, HostSpace, u, tv0, j, k, onePerTexture));
        var t := u.Tex(j);
        if t != null {
          var n := Applied(u, t, k, onePerTexture);
          if t == tex && written {
            assert Applied(u, t, next, onePerTexture) == n + 1;
            assert t.buffer == Conv(host, HostSpace, old(t.buffer));
          } else {
            assert Applied(u, t, next, onePerTexture) == n;
            assert t.buffer == old(t.buffer);
          }
        }
      }
    }

    /** The four map steps of structs_to_spike, in source order; the four
        statement pairs of the source, one per map, are the four rounds of
        the loop. With onePerTexture false this is the code as written: a
        texture designated by several maps has its buffer translated once
        per map. */
    method MapsToSpike(u: Uniforms, onePerTexture: bool)
      requires Valid() && u.Linked() && u.At(host, HostSpace) && AllIn(host, HostSpace, u.Maps())
      modifies u, u.TextureSet()
      ensures u.Linked() && u.At(host, GuestSpace)
      ensures u.jointMatrices == old(u.jointMatrices) && u.jointNMatrices == old(u.jointNMatrices)
      ensures u.Maps() == ConvSeq(host, GuestSpace, old(u.Maps()))
      ensures TexturesAfter(host, GuestSpace, u, old(u.TexViews()), NUM_MAPS, onePerTexture)
    {
      ghost var tv0 := u.TexViews();
      ghost var maps0 := u.Maps();
      TexturesAfterStart(host, GuestSpace, u, onePerTexture);
      for k := 0 to NUM_MAPS
        invariant u.jointMatrices == old(u.jointMatrices) && u.jointNMatrices == old(u.jointNMatrices)
        invariant forall i :: 0 <= i < k ==> u.Maps()[i] == ToGuest(host, maps0[i])
        invariant forall i :: k <= i < NUM_MAPS ==> u.Maps()[i] == maps0[i]
        invariant TexturesAfter(host, GuestSpace, u, tv0, k, onePerTexture)
      {
        MapToSpike(u, k, onePerTexture, tv0);
      }
      LinkedConv(host, GuestSpace, maps0, u.Textures());
    }

    /** The four map steps of structs_to_host, in source order. */
    method MapsToHost(u: Uniforms, onePerTexture: bool)
      requires Valid() && u.Linked() && u.At(host, GuestSpace) && AllIn(host, GuestSpace, u.Maps())
      modifies u, u.TextureSet()
      ensures u.Linked() && u.At(host, HostSpace)
      ensures u.jointMatrices == old(u.jointMatrices) && u.jointNMatrices == old(u.jointNMatrices)
      ensures u.Maps() == ConvSeq(host, HostSpace, old(u.Maps()))
      ensures TexturesAfter(host, HostSpace, u, old(u.TexViews()), NUM_MAPS, onePerTexture)
    {
      ghost var tv0 := u.TexViews();
      ghost var maps0 := u.Maps();
      TexturesAfterStart(host, HostSpace, u, onePerTexture);
      for k := 0 to NUM_MAPS
        invariant u.jointMatrices == old(u.jointMatrices) && u.jointNMatrices == old(u.jointNMatrices)
        invariant forall i :: 0 <= i < k ==> u.Maps()[i] == ToHost(host, maps0[i])
        invariant forall i :: k <= i < NUM_MAPS ==> u.Maps()[i] == maps0[i]
        invariant TexturesAfter(host, HostSpace, u, tv0, k, onePerTexture)
      {
        MapToHost(u, k, onePerTexture, tv0);
      }
      LinkedConv(host, HostSpace, maps0, u.Textures());
      forall k | 0 <= k < NUM_MAPS && u.Textures()[k] != null
        ensures u.Maps()[k] == u.Textures()[k].addr
      {
        ConvRoundTrip(host, GuestSpace, u.Textures()[k].addr);
      }
    }

    /** The uniforms part of structs_to_spike: the two joint matrix
        pointers, then the four maps. */
    method UniformsToSpike(u: Uniforms, onePerTexture: bool)
      requires Valid() && u.Linked() && u.At(host, HostSpace) && AllIn(host, HostSpace, u.Maps())
      modifies u, u.TextureSet()
      ensures u.Linked() && u.At(host, GuestSpace)
      ensures u.jointMatrices == ToGuest(host, old(u.jointMatrices))
      ensures u.jointNMatrices == ToGuest(host, old(u.jointNMatrices))
      ensures u.Maps() == ConvSeq(host, GuestSpace, old(u.Maps()))
      ensures TexturesAfter(host, GuestSpace, u, old(u.TexViews()), NUM_MAPS, onePerTexture)
    {
      u.jointMatrices := ToGuest(host, u.jointMatrices);
      u.jointNMatrices := ToGuest(host, u.jointNMatrices);
      MapsToSpike(u, onePerTexture);
    }

    /** The uniforms part of structs_to_host, the same steps in the other
        direction. */
    method UniformsToHost(u: Uniforms, onePerTexture: bool)
      requires Valid() && u.Linked() && u.At(host, GuestSpace) && AllIn(host, GuestSpace, u.Maps())
      modifies u, u.TextureSet()
      ensures u.Linked() && u.At(host, HostSpace)
      ensures u.jointMatrices == ToHost(host, old(u.jointMatrices))
      ensures u.jointNMatrices == ToHost(host, old(u.jointNMatrices))
      ensures u.Maps() == ConvSeq(host, HostSpace, old(u.Maps()))
      ensures TexturesAfter(host, HostSpace, u, old(u.TexViews()), NUM_MAPS, onePerTexture)
    {
      u.jointMatrices := ToHost(host, u.jointMatrices);
      u.jointNMatrices := ToHost(host, u.jointNMatrices);
      MapsToHost(u, onePerTexture);
    }

    /** The scalar and array pointer fields of program_t, in the order both
        passes translate them: the two shader entry points, the three
        attribute pointers, the varyings and uniforms pointers, then the ten
        input and output varying pointers pairwise. */
    method FieldsTo(p: Program, to: Space)
      requires p.Valid()
      modifies p
      ensures p.fragmentShader == Conv(host, to, old(p.fragmentShader))
      ensures p.vertexShader == Conv(host, to, old(p.vertexShader))
      ensures p.shaderAttribs == ConvSeq(host, to, old(p.shaderAttribs))
      ensures p.shaderVaryings == Conv(host, to, old(p.shaderVaryings))
      ensures p.shaderUniforms == Conv(host, to, old(p.shaderUniforms))
      ensures p.inVaryings == ConvSeq(host, to, old(p.inVaryings))
      ensures p.outVaryings == ConvSeq(host, to, old(p.outVaryings))
      ensures p.sizeofAttribs == old(p.sizeofAttribs) && p.sizeofVaryings == old(p.sizeofVaryings)
      ensures p.sizeofUniforms == old(p.sizeofUniforms)
      ensures p.doubleSided == old(p.doubleSided) && p.enableBlend == old(p.enableBlend)
      ensures p.inCoords == old(p.inCoords) && p.outCoords == old(p.outCoords)
    {
      p.fragmentShader := Conv(host, to, p.fragmentShader);
      p.vertexShader := Conv(host, to, p.vertexShader);
      for i := 0 to NUM_ATTRIBS
        modifies p`shaderAttribs
        invariant |p.shaderAttribs| == NUM_ATTRIBS
        invariant forall j :: 0 <= j < i ==> p.shaderAttribs[j] == Conv(host, to, old(p.shaderAttribs[j]))
        invariant forall j :: i <= j < NUM_ATTRIBS ==> p.shaderAttribs[j] == old(p.shaderAttribs[j])
      {
        p.shaderAttribs := p.shaderAttribs[i := Conv(host, to, p.shaderAttribs[i])];
      }
      p.shaderVaryings := Conv(host, to, p.shaderVaryings);
      p.shaderUniforms := Conv(host, to, p.shaderUniforms);
      for i := 0 to MAX_VARYINGS
        modifies p`inVaryings, p`outVaryings
        invariant |p.inVaryings| == MAX_VARYINGS && |p.outVaryings| == MAX_VARYINGS
        invariant forall j :: 0 <= j < i ==> p.inVaryings[j] == Conv(host, to, old(p.inVaryings[j]))
        invariant forall j :: i <= j < MAX_VARYINGS ==> p.inVaryings[j] == old(p.inVaryings[j])
        invariant forall j :: 0 <= j < i ==> p.outVaryings[j] == Conv(host, to, old(p.outVaryings[j]))
        invariant forall j :: i <= j < MAX_VARYINGS ==> p.outVaryings[j] == old(p.outVaryings[j])
      {
        p.inVaryings := p.inVaryings[i := Conv(host, to, p.inVaryings[i])];
        p.outVaryings := p.outVaryings[i := Conv(host, to, p.outVaryings[i])];
      }
    }

    /** structs_to_spike: every pointer reachable from the program is
        translated into the guest's space, and so is the program pointer
        itself, which is returned. Whatever the aliasing, every field but the
        textures' buffers is translated exactly once and each buffer as often
        as the pass reached it; when each texture is reached once (the
        corrected pass, or no two maps sharing a texture) the graph is the
        translation of the one before. */
    method StructsToSpike(p: Program, program: u64, onePerTexture: bool) returns (guestProgram: u64)
      requires Valid() && p.Valid() && ViewIn(host, HostSpace, p.View()) && p.At(host, HostSpace, program)
      modifies p.Footprint()
      ensures guestProgram == ToGuest(host, program)
      ensures p.Valid() && p.At(host, GuestSpace, guestProgram)
      ensures Untextured(p.View()) == Untextured(ConvView(host, GuestSpace, old(p.View())))
      ensures p.uniforms != null ==>
        TexturesAfter(host, GuestSpace, p.uniforms, old(p.uniforms.TexViews()), NUM_MAPS, onePerTexture)
      ensures onePerTexture || p.uniforms == null || p.uniforms.Distinct() ==>
        p.View() == ConvView(host, GuestSpace, old(p.View()))
    {
      ghost var v0 := p.View();
      // every field is read through the program pointer, which holds the
      // program's host address until it is translated last
      guestProgram := program;
      assert guestProgram == p.addr;
      var u := p.uniforms;
      var bup := p.shaderUniforms;
      if bup != 0 {
        assert bup == u.addr;
        UniformsToSpike(u, onePerTexture);
        if onePerTexture || u.Distinct() {
          TexturesAfterView(host, GuestSpace, u, v0.uniforms.value, onePerTexture);
        }
      }
      label Fields:
      assert guestProgram == p.addr;
      FieldsTo(p, GuestSpace);
      if u != null {
        UniformsKept@Fields(u);
      }
      guestProgram := ToGuest(host, guestProgram);
    }

    /** structs_to_host: the program pointer is translated back first, the
        uniforms are reached through the translated uniforms pointer, and
        then every field as in structs_to_spike. */
    method StructsToHost(p: Program, program: u64, onePerTexture: bool) returns (hostProgram: u64)
      requires Valid() && p.Valid() && ViewIn(host, GuestSpace, p.View()) && p.At(host, GuestSpace, program)
      modifies p.Footprint()
      ensures hostProgram == ToHost(host, program)
      ensures p.Valid() && p.At(host, HostSpace, hostProgram)
      ensures Untextured(p.View()) == Untextured(ConvView(host, HostSpace, old(p.View())))
      ensures p.uniforms != null ==>
        TexturesAfter(host, HostSpace, p.uniforms, old(p.uniforms.TexViews()), NUM_MAPS, onePerTexture)
      ensures onePerTexture || p.uniforms == null || p.uniforms.Distinct() ==>
        p.View() == ConvView(host, HostSpace, old(p.View()))
    {
      ghost var v0 := p.View();
      hostProgram := ToHost(host, program);
      // every field is read through the translated program pointer
      ConvRoundTrip(host, GuestSpace, p.addr);
      assert hostProgram == p.addr;
      var u := p.uniforms;
      var bup := ToHost(host, p.shaderUniforms);
      if bup != 0 {
        ConvRoundTrip(host, GuestSpace, u.addr);
        assert bup == u.addr;
        UniformsToHost(u, onePerTexture);
        if onePerTexture || u.Distinct() {
          TexturesAfterView(host, HostSpace, u, v0.uniforms.value, onePerTexture);
        }
      }
      label Fields:
      assert hostProgram == p.addr;
      FieldsTo(p, HostSpace);
      if u != null {
        UniformsKept@Fields(u);
      }
    }

    /** structs_to_spike followed by structs_to_host, as every shader call
        brackets its exchange with the guest: when each texture is reached
        once (the corrected passes, or no two maps sharing a texture) every
        field of the graph and the program pointer come back as they were. */
    method StructsRoundTrip(p: Program, program: u64, onePerTexture: bool) returns (back: u64)
      requires Valid() && p.Valid() && ViewIn(host, HostSpace, p.View()) && p.At(host, HostSpace, program)
      requires onePerTexture || p.uniforms == null || p.uniforms.Distinct()
      modifies p.Footprint()
      ensures p.View() == old(p.View())
      ensures back == program
    {
      ghost var v0 := p.View();
      var guestProgram := StructsToSpike(p, program, onePerTexture);
      ConvViewRoundTrip(host, GuestSpace, v0);
      ConvRoundTrip(host, GuestSpace, program);
      back := StructsToHost(p, guestProgram, onePerTexture);
    }

    /** load_shader: file is the file's contents, or None when it cannot be
        opened. The header is checked first; then the first SLOT_SIZE bytes
        are copied into the slot for sdrType, and the call still fails when
        the file did not end within them. */
    method LoadShader(file: Option<seq<u8>>, sdrType: int) returns (entry: u64)
      requires Valid()
      modifies buffer
      ensures entry == LoadResult(host, file, sdrType)
      ensures !HeaderAccepted(file) ==> buffer[..] == old(buffer[..])
      ensures HeaderAccepted(file) ==>
        buffer[..] == Splice(old(buffer[..]), ShaderSlot(sdrType), file.value[..CopiedLength(file.value)])
    {
      var offset := FS_OFFSET;
      if sdrType != 0 {
        offset := VS_OFFSET;
      }
      if file.None? {
        return 0;
      }
      var f := file.value;
      if |f| < ELF64_EHDR_SIZE {
        return 0;
      }
      if f[0] != 0x7f || f[1] != 0x45 || f[2] != 0x4c || f[3] != 0x46 {
        return 0;
      }
      var copied := if |f| < SLOT_SIZE then |f| else SLOT_SIZE;
      Store(offset, f[..copied]);
      if copied == SLOT_SIZE {
        return 0;
      }
      entry := (host + offset + ElfEntry(f) - LINK_BASE) % WORD_MOD;
    }

    /** The rendezvous every call starts with: recv_msg for READY with no
        argument buffer, once the guest has said it is ready. */
    method AwaitReady()
      requires Valid() && Intersects(Tag(buffer[..]), CMD_READY)
    {
      var tag := Recv(buffer, CMD_READY, null);
    }

    /** Wait for READY and post a command with its arguments. */
    method Post(c: u64, args: seq<u64>)
      requires Valid() && Intersects(Tag(buffer[..]), CMD_READY) && |args| <= MAX_ARGS
      modifies buffer
      ensures buffer[..] == SendSpec(old(buffer[..]), c, args)
      ensures Tag(buffer[..]) == c
      ensures forall i :: 0 <= i < |args| ==> WordAt(buffer[..], i + 1) == args[i]
    {
      AwaitReady();
      ghost var s0 := buffer[..];
      ghost var trace := Send(buffer, c, args);
      SendDelivers(s0, c, args);
    }

    /** Wait for the READY reply and collect its five argument words. */
    method CollectReply() returns (reply: seq<u64>)
      requires Valid() && Tag(buffer[..]) == CMD_READY
      ensures reply == Received(buffer[..])
    {
      IntersectsSelf(CMD_READY);
      var ret := new u64[MAX_ARGS];
      var tag := Recv(buffer, CMD_READY, ret);
      reply := ret[..];
    }

    /** The message exchange of invoke_fragment_shader: wait for READY,
        send FS with the program pointer, discard and backface, let the guest
        serve it and collect the five reply words. */
    method ExchangeFragment(guest: Guest, p: Program, guestProgram: u64, discard: i32, backface: i32)
      returns (reply: seq<u64>)
      requires Valid() && guest.region == buffer && Intersects(Tag(buffer[..]), CMD_READY) && p.Valid()
      modifies buffer, guest
      ensures guest.colorBuffer == old(guest.colorBuffer)
      ensures var sent := SendSpec(old(buffer[..]), CMD_FS, [guestProgram, WordOfInt32(discard), WordOfInt32(backface)]);
        reply == FragmentWords(FragmentRun(guest.shaders, sent, old(p.View()), discard, backface))
        && buffer[..] == SendSpec(sent, CMD_READY, reply)
    {
      var args := [guestProgram, WordOfInt32(discard), WordOfInt32(backface)];
      label Start:
      Post(CMD_FS, args);
      ProgramKept@Start(p);
      ghost var sent := buffer[..];
      assert WordAt(sent, 2) == args[1] && WordAt(sent, 3) == args[2];
      reply := FragmentServed(guest, p, discard, backface);
    }

    /** Once FS is posted: the guest serves it, and the host collects the
        five reply words, which are the shader's discard flag and colour. */
    method FragmentServed(guest: Guest, p: Program, discard: i32, backface: i32) returns (reply: seq<u64>)
      requires Valid() && guest.region == buffer && p.Valid() && Tag(buffer[..]) == CMD_FS
      requires Int32OfWord(WordAt(buffer[..], 2)) == discard && Int32OfWord(WordAt(buffer[..], 3)) == backface
      modifies buffer, guest
      ensures guest.colorBuffer == old(guest.colorBuffer)
      ensures reply == FragmentWords(FragmentRun(guest.shaders, old(buffer[..]), old(p.View()), discard, backface))
      ensures buffer[..] == SendSpec(old(buffer[..]), CMD_READY, reply)
    {
      ghost var sent := buffer[..];
      FragmentRound(guest.shaders, sent, guest.colorBuffer, p);
      ghost var r := FragmentRun(guest.shaders, sent, p.View(), discard, backface);
      var stop := guest.Step(p);
      assert buffer[..] == SendSpec(sent, CMD_READY, FragmentWords(r));
      SendRecvRoundTrip(sent, CMD_READY, FragmentWords(r), CMD_READY);
      reply := CollectReply();
    }

    /** The second half of invoke_fragment_shader: the exchange with the
        guest, then structs_to_host. */
    method ExchangeAndRestore(guest: Guest, p: Program, guestProgram: u64, discard: i32, backface: i32, onePerTexture: bool)
      returns (reply: seq<u64>)
      requires Valid() && guest.region == buffer && Intersects(Tag(buffer[..]), CMD_READY)
      requires p.Valid() && ViewIn(host, GuestSpace, p.View()) && p.At(host, GuestSpace, guestProgram)
      requires onePerTexture || p.uniforms == null || p.uniforms.Distinct()
      modifies buffer, guest, p.Footprint()
      ensures p.View() == ConvView(host, HostSpace, old(p.View()))
      ensures guest.colorBuffer == old(guest.colorBuffer)
      ensures var sent := SendSpec(old(buffer[..]), CMD_FS, [guestProgram, WordOfInt32(discard), WordOfInt32(backface)]);
        reply == FragmentWords(FragmentRun(guest.shaders, sent, old(p.View()), discard, backface))
        && buffer[..] == SendSpec(sent, CMD_READY, reply)
    {
      GraphApart(p, buffer, guest);
      label Sent:
      reply := ExchangeFragment(guest, p, guestProgram, discard, backface);
      ProgramKept@Sent(p);
      var hostProgram := StructsToHost(p, guestProgram, onePerTexture);
    }

    /** invoke_fragment_shader, where each pass reaches every texture once
        (the corrected passes, or no two maps sharing a texture): the guest
        runs the fragment shader on the guest's view of the program, the host
        gets back the discard flag and colour it produced, and the graph is
        as it was. */
    method InvokeFragmentShader(guest: Guest, p: Program, program: u64, discard: i32, backface: i32, onePerTexture: bool)
      returns (discardOut: i32, color: Vec4)
      requires Valid() && guest.region == buffer && Intersects(Tag(buffer[..]), CMD_READY)
      requires p.Valid() && ViewIn(host, HostSpace, p.View()) && p.At(host, HostSpace, program)
      requires onePerTexture || p.uniforms == null || p.uniforms.Distinct()
      modifies buffer, guest, p.Footprint()
      ensures p.View() == old(p.View())
      ensures guest.colorBuffer == old(guest.colorBuffer)
      ensures var g := ConvView(host, GuestSpace, old(p.View()));
        var sent := SendSpec(old(buffer[..]), CMD_FS, [ToGuest(host, program), WordOfInt32(discard), WordOfInt32(backface)]);
        var r := FragmentRun(guest.shaders, sent, g, discard, backface);
        discardOut == r.discard && color == r.color
        && buffer[..] == SendSpec(sent, CMD_READY, FragmentWords(r))
    {
      GraphApart(p, buffer, guest);
      ghost var v0 := p.View();
      var guestProgram := StructsToSpike(p, program, onePerTexture);
      ConvViewRoundTrip(host, GuestSpace, v0);
      ghost var sent := SendSpec(buffer[..], CMD_FS, [guestProgram, WordOfInt32(discard), WordOfInt32(backface)]);
      ghost var r := FragmentRun(guest.shaders, sent, p.View(), discard, backface);
      var ret := ExchangeAndRestore(guest, p, guestProgram, discard, backface, onePerTexture);
      FragmentWordsRoundTrip(r);
      discardOut := Int32OfWord(ret[0]);
      color := Vec4OfWords(ret[1..]);
    }

    /** The message exchange of invoke_vertex_shader: wait for READY, send
        VS with the program pointer and the vertex index, let the guest serve
        it and collect the reply words. The buffer holds five words, as many
        as recv_msg copies for READY; the first four are the position. */
    method ExchangeVertex(guest: Guest, p: Program, guestProgram: u64, i: i32)
      returns (reply: seq<u64>)
      requires Valid() && guest.region == buffer && Intersects(Tag(buffer[..]), CMD_READY)
      requires p.Valid() && 0 <= i < NUM_ATTRIBS
      modifies buffer, guest
      ensures guest.colorBuffer == old(guest.colorBuffer)
      ensures var sent := SendSpec(old(buffer[..]), CMD_VS, [guestProgram, WordOfInt32(i)]);
        var v := VertexRun(guest.shaders, sent, old(p.View()), i);
        |reply| == MAX_ARGS && reply[..4] == Vec4Words(v)
        && buffer[..] == SendSpec(sent, CMD_READY, Vec4Words(v))
    {
      var args := [guestProgram, WordOfInt32(i)];
      label Start:
      Post(CMD_VS, args);
      ProgramKept@Start(p);
      ghost var sent := buffer[..];
      assert WordAt(sent, 2) == args[1];
      reply := VertexServed(guest, p, i);
    }

    /** Once VS is posted: the guest serves it, and the host collects the
        five reply words, of which the first four are the position. */
    method VertexServed(guest: Guest, p: Program, i: i32) returns (reply: seq<u64>)
      requires Valid() && guest.region == buffer && p.Valid() && Tag(buffer[..]) == CMD_VS
      requires 0 <= i < NUM_ATTRIBS && Int32OfWord(WordAt(buffer[..], 2)) == i
      modifies buffer, guest
      ensures guest.colorBuffer == old(guest.colorBuffer)
      ensures var v := VertexRun(guest.shaders, old(buffer[..]), old(p.View()), i);
        |reply| == MAX_ARGS && reply[..4] == Vec4Words(v)
        && buffer[..] == SendSpec(old(buffer[..]), CMD_READY, Vec4Words(v))
    {
      ghost var sent := buffer[..];
      VertexRound(guest.shaders, sent, guest.colorBuffer, p);
      ghost var v := VertexRun(guest.shaders, sent, p.View(), i);
      var stop := guest.Step(p);
      assert buffer[..] == SendSpec(sent, CMD_READY, Vec4Words(v));
      SendRecvRoundTrip(sent, CMD_READY, Vec4Words(v), CMD_READY);
      reply := CollectReply();
    }

    /** The second half of invoke_vertex_shader: the exchange with the
        guest, then structs_to_host. */
    method ExchangeVertexAndRestore(guest: Guest, p: Program, guestProgram: u64, i: i32, onePerTexture: bool)
      returns (reply: seq<u64>)
      requires Valid() && guest.region == buffer && Intersects(Tag(buffer[..]), CMD_READY)
      requires p.Valid() && ViewIn(host, GuestSpace, p.View()) && p.At(host, GuestSpace, guestProgram)
      requires onePerTexture || p.uniforms == null || p.uniforms.Distinct()
      requires 0 <= i < NUM_ATTRIBS
      modifies buffer, guest, p.Footprint()
      ensures p.View() == ConvView(host, HostSpace, old(p.View()))
      ensures guest.colorBuffer == old(guest.colorBuffer)
      ensures var sent := SendSpec(old(buffer[..]), CMD_VS, [guestProgram, WordOfInt32(i)]);
        var v := VertexRun(guest.shaders, sent, old(p.View()), i);
        |reply| == MAX_ARGS && reply[..4] == Vec4Words(v)
        && buffer[..] == SendSpec(sent, CMD_READY, Vec4Words(v))
    {
      GraphApart(p, buffer, guest);
      label Sent:
      reply := ExchangeVertex(guest, p, guestProgram, i);
      ProgramKept@Sent(p);
      var hostProgram := StructsToHost(p, guestProgram, onePerTexture);
    }

    /** invoke_vertex_shader, where each pass reaches every texture once and
        with a reply buffer of five words: the guest runs the vertex shader on
        attribute i and input varying i of the guest's view of the program,
        the host gets back the position it produced, and the graph is as it
        was. */
    method InvokeVertexShader(guest: Guest, p: Program, program: u64, i: i32, onePerTexture: bool) returns (rv: Vec4)
      requires Valid() && guest.region == buffer && Intersects(Tag(buffer[..]), CMD_READY)
      requires p.Valid() && ViewIn(host, HostSpace, p.View()) && p.At(host, HostSpace, program)
      requires onePerTexture || p.uniforms == null || p.uniforms.Distinct()
      requires 0 <= i < NUM_ATTRIBS
      modifies buffer, guest, p.Footprint()
      ensures p.View() == old(p.View())
      ensures guest.colorBuffer == old(guest.colorBuffer)
      ensures var g := ConvView(host, GuestSpace, old(p.View()));
        var sent := SendSpec(old(buffer[..]), CMD_VS, [ToGuest(host, program), WordOfInt32(i)]);
        var v := VertexRun(guest.shaders, sent, g, i);
        rv == v && buffer[..] == SendSpec(sent, CMD_READY, Vec4Words(v))
    {
      GraphApart(p, buffer, guest);
      ghost var v0 := p.View();
      var guestProgram := StructsToSpike(p, program, onePerTexture);
      ConvViewRoundTrip(host, GuestSpace, v0);
      ghost var sent := SendSpec(buffer[..], CMD_VS, [guestProgram, WordOfInt32(i)]);
      ghost var v := VertexRun(guest.shaders, sent, p.View(), i);
      var ret := ExchangeVertexAndRestore(guest, p, guestProgram, i, onePerTexture);
      Vec4WordsRoundTrip(v);
      rv := Vec4OfWords(ret);
    }

    /** invoke_update_fbaddr: the host translates the framebuffer address
        into the guest's space itself (null stays null), posts FBADDR and
        waits for READY; the guest then draws relative to that address. */
    method InvokeUpdateFbaddr(guest: Guest, addr: u64)
      requires Valid() && guest.region == buffer && Intersects(Tag(buffer[..]), CMD_READY)
      modifies buffer, guest
      ensures guest.colorBuffer == ToGuest(host, addr)
      ensures buffer[..] == ReadyReply(SendSpec(old(buffer[..]), CMD_FBADDR, [ToGuest(host, addr)]))
    {
      var a := addr;
      if a != 0 {
        a := (a - host + BASE_ADDR) % WORD_MOD;
      }
      Post(CMD_FBADDR, [a]);
      ghost var sent := buffer[..];
      FbaddrRound(guest.shaders, sent, guest.colorBuffer);
      var stop := guest.Step(null);
      IntersectsSelf(CMD_READY);
      SendDelivers(sent, CMD_READY, []);
      AwaitReady();
    }

    /** invoke_draw: post DRAW with the pixel (widened to a word) and the
        offset, and wait for READY; the guest has then stored the pixel at
        color_buffer + 4 * offset. */
    method InvokeDraw(guest: Guest, pixel: u32, offset: i64)
      requires Valid() && guest.region == buffer && Intersects(Tag(buffer[..]), CMD_READY)
      requires DrawFits(guest.colorBuffer, offset)
      modifies buffer, guest
      ensures guest.colorBuffer == old(guest.colorBuffer)
      ensures buffer[..] == ReadyReply(Drawn(SendSpec(old(buffer[..]), CMD_DRAW, [pixel, WordOfInt64(offset)]),
        guest.colorBuffer, pixel, offset))
    {
      var args := [pixel, WordOfInt64(offset)];
      Post(CMD_DRAW, args);
      ghost var sent := buffer[..];
      assert WordAt(sent, 1) == args[0] && WordAt(sent, 2) == args[1];
      assert Low32(WordAt(sent, 1)) == pixel && Int64OfWord(WordAt(sent, 2)) == offset;
      DrawRound(guest.shaders, sent, guest.colorBuffer);
      ghost var drawn := Drawn(sent, guest.colorBuffer, pixel, offset);
      var stop := guest.Step(null);
      assert buffer[..] == ReadyReply(drawn);
      IntersectsSelf(CMD_READY);
      SendDelivers(drawn, CMD_READY, []);
      AwaitReady();
    }

    /** shutdown: wait for READY and post STOP; the guest's next round ends
        its loop. */
    method Shutdown()
      requires Valid() && Intersects(Tag(buffer[..]), CMD_READY)
      modifies buffer
      ensures buffer[..] == SendSpec(old(buffer[..]), CMD_STOP, [])
      ensures Tag(buffer[..]) == CMD_STOP
    {
      Post(CMD_STOP, []);
    }
  }
}
