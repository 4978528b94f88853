/** The shading program graph the bridge translates: a Program, the Blinn
    Uniforms it may point to, and the Textures those point to. Every pointer
    is a 64-bit word; the object a non-null pointer designates is recorded
    beside it as a reference, and the bridge dereferences through that. Each
    object also carries the host address it sits at, so that a dereference
    can be checked to go through a pointer that holds that address. */
module Graph {
  import opened Machine
  import opened Translate

  const NUM_ATTRIBS: nat := 3
  const MAX_VARYINGS: nat := 10
  const NUM_MAPS: nat := 4

  /** A vec4_t, as the bit patterns of its four 32-bit floats, which the
      bridge copies but never interprets. */
  datatype Vec4 = Vec4(x: u32, y: u32, z: u32, w: u32)

  /** texture_t: width, height and the pixel buffer pointer; addr is where
      the struct sits on the host. */
  class Texture {
    var width: int
    var height: int
    var buffer: u64
    ghost const addr: u64

    constructor (width: int, height: int, buffer: u64, ghost addr: u64)
      ensures this.width == width && this.height == height && this.buffer == buffer
      ensures this.addr == addr
    {
      this.width, this.height, this.buffer := width, height, buffer;
      this.addr := addr;
    }
  }

  /** The pointer fields of blinn_uniforms_t. shadowTex .. emissionTex are
      the textures the four map pointers designate; addr is where the struct
      sits on the host. */
  class Uniforms {
    var jointMatrices: u64
    var jointNMatrices: u64
    var shadowMap: u64
    var diffuseMap: u64
    var specularMap: u64
    var emissionMap: u64
    const shadowTex: Texture?
    const diffuseTex: Texture?
    const specularTex: Texture?
    const emissionTex: Texture?
    ghost const addr: u64

    constructor (jointMatrices: u64, jointNMatrices: u64, maps: seq<u64>, textures: seq<Texture?>, ghost addr: u64)
      requires |maps| == NUM_MAPS && |textures| == NUM_MAPS
      ensures this.jointMatrices == jointMatrices && this.jointNMatrices == jointNMatrices
      ensures Maps() == maps && Textures() == textures && this.addr == addr
    {
      this.jointMatrices, this.jointNMatrices := jointMatrices, jointNMatrices;
      this.addr := addr;
      shadowMap, diffuseMap, specularMap, emissionMap := maps[0], maps[1], maps[2], maps[3];
      shadowTex, diffuseTex, specularTex, emissionTex := textures[0], textures[1], textures[2], textures[3];
    }

    function Textures(): seq<Texture?> {
      [shadowTex, diffuseTex, specularTex, emissionTex]
    }

    /** The texture map k designates. */
    function Tex(k: nat): (t: Texture?)
      requires k < NUM_MAPS
      ensures t == Textures()[k]
    {
      if k == 0 then shadowTex else if k == 1 then diffuseTex else if k == 2 then specularTex else emissionTex
    }

    function Maps(): seq<u64>
      reads this
    {
      [shadowMap, diffuseMap, specularMap, emissionMap]
    }

    /** Stores p into map k. */
    method SetMap(k: nat, p: u64)
      requires k < NUM_MAPS
      modifies this`shadowMap, this`diffuseMap, this`specularMap, this`emissionMap
      ensures Maps() == old(Maps())[k := p]
      ensures jointMatrices == old(jointMatrices) && jointNMatrices == old(jointNMatrices)
    {
      if k == 0 {
        shadowMap := p;
      } else if k == 1 {
        diffuseMap := p;
      } else if k == 2 {
        specularMap := p;
      } else {
        emissionMap := p;
      }
    }

    ghost function Footprint(): set<object> {
      {this} + TextureSet()
    }

    /** The textures the maps designate. */
    ghost function TextureSet(): set<Texture> {
      (if shadowTex == null then {} else {shadowTex})
      + (if diffuseTex == null then {} else {diffuseTex})
      + (if specularTex == null then {} else {specularTex})
      + (if emissionTex == null then {} else {emissionTex})
    }

    /** Each map pointer is null exactly when it designates no texture, and
        two non-null maps hold the same word exactly when they designate the
        same texture. */
    ghost predicate Linked()
      reads this
    {
      LinkedWords(Maps(), Textures())
    }

    /** Every texture the maps designate sits at a host address inside the
        region, and its map holds that address as seen from space sp. */
    ghost predicate At(h: u64, sp: Space)
      reads this
    {
      forall k :: 0 <= k < NUM_MAPS && Textures()[k] != null ==>
        InRegion(h, HostSpace, Textures()[k].addr) && Maps()[k] == Seen(h, sp, Textures()[k].addr)
    }

    /** No two maps designate the same texture. */
    ghost predicate Distinct() {
      forall j, k :: 0 <= j < k < NUM_MAPS && Textures()[j] != null ==> Textures()[j] != Textures()[k]
    }

    /** How many of the four maps designate t. */
    function Refs(t: Texture): nat {
      (if shadowTex == t then 1 else 0) + (if diffuseTex == t then 1 else 0)
      + (if specularTex == t then 1 else 0) + (if emissionTex == t then 1 else 0)
    }

    /** The designated textures' fields, map by map. */
    function TexViews(): seq<Option<TextureView>>
      reads TextureSet()
    {
      [TexView(shadowTex), TexView(diffuseTex), TexView(specularTex), TexView(emissionTex)]
    }

    function View(): UniformsView
      reads Footprint()
    {
      UniformsView(jointMatrices, jointNMatrices, Maps(), TexViews())
    }
  }

  /** program_t. The three attribute pointers and the two arrays of ten
      varying pointers are arrays embedded in the struct, so they are
      values held by the program's own fields. */
  class Program {
    ghost const addr: u64
    var vertexShader: u64
    var fragmentShader: u64
    var sizeofAttribs: int
    var sizeofVaryings: int
    var sizeofUniforms: int
    var doubleSided: int
    var enableBlend: int
    var shaderAttribs: seq<u64>
    var shaderVaryings: u64
    var shaderUniforms: u64
    const uniforms: Uniforms?
    var inCoords: seq<Vec4>
    var outCoords: seq<Vec4>
    var inVaryings: seq<u64>
    var outVaryings: seq<u64>

    constructor (vertexShader: u64, fragmentShader: u64,
                 sizeofAttribs: int, sizeofVaryings: int, sizeofUniforms: int, doubleSided: int, enableBlend: int,
                 shaderAttribs: seq<u64>, shaderVaryings: u64, shaderUniforms: u64, uniforms: Uniforms?,
                 inVaryings: seq<u64>, outVaryings: seq<u64>, ghost addr: u64)
      requires |shaderAttribs| == NUM_ATTRIBS
      requires |inVaryings| == MAX_VARYINGS && |outVaryings| == MAX_VARYINGS
      requires shaderUniforms == 0 <==> uniforms == null
      requires uniforms != null ==> uniforms.Linked()
      ensures Valid() && this.addr == addr
      ensures this.vertexShader == vertexShader && this.fragmentShader == fragmentShader
      ensures this.sizeofAttribs == sizeofAttribs && this.sizeofVaryings == sizeofVaryings
      ensures this.sizeofUniforms == sizeofUniforms
      ensures this.doubleSided == doubleSided && this.enableBlend == enableBlend
      ensures this.shaderUniforms == shaderUniforms && this.uniforms == uniforms
      ensures this.shaderAttribs == shaderAttribs && this.shaderVaryings == shaderVaryings
      ensures this.inVaryings == inVaryings && this.outVaryings == outVaryings
      ensures inCoords == seq(MAX_VARYINGS, _ => Vec4(0, 0, 0, 0)) && outCoords == inCoords
    {
      this.vertexShader, this.fragmentShader := vertexShader, fragmentShader;
      this.sizeofAttribs, this.sizeofVaryings, this.sizeofUniforms := sizeofAttribs, sizeofVaryings, sizeofUniforms;
      this.doubleSided, this.enableBlend := doubleSided, enableBlend;
      this.addr := addr;
      this.shaderAttribs, this.shaderVaryings := shaderAttribs, shaderVaryings;
      this.shaderUniforms, this.uniforms := shaderUniforms, uniforms;
      inCoords := seq(MAX_VARYINGS, _ => Vec4(0, 0, 0, 0));
      outCoords := inCoords;
      this.inVaryings, this.outVaryings := inVaryings, outVaryings;
    }

    ghost function Footprint(): set<object> {
      {this} + (if uniforms == null then {} else uniforms.Footprint())
    }

    ghost predicate Valid()
      reads this, uniforms
    {
      && |shaderAttribs| == NUM_ATTRIBS
      && |inCoords| == MAX_VARYINGS
      && |outCoords| == MAX_VARYINGS
      && |inVaryings| == MAX_VARYINGS
      && |outVaryings| == MAX_VARYINGS
      && (shaderUniforms == 0 <==> uniforms == null)
      && (uniforms != null ==> uniforms.Linked())
    }

    /** The program and its uniforms sit at host addresses inside the region,
        and ptr, the uniforms pointer and the maps hold the addresses of what
        they designate as seen from space sp. */
    ghost predicate At(h: u64, sp: Space, ptr: u64)
      reads this, uniforms
    {
      && InRegion(h, HostSpace, addr) && ptr == Seen(h, sp, addr)
      && (uniforms != null ==>
            InRegion(h, HostSpace, uniforms.addr) && shaderUniforms == Seen(h, sp, uniforms.addr)
            && uniforms.At(h, sp))
    }

    function View(): ProgramView
      reads Footprint()
    {
      ProgramView(vertexShader, fragmentShader,
        sizeofAttribs, sizeofVaryings, sizeofUniforms, doubleSided, enableBlend,
        shaderAttribs, shaderVaryings, shaderUniforms,
        if uniforms == null then None else Some(uniforms.View()),
        inCoords, outCoords, inVaryings, outVaryings)
    }
  }

  /** The link between the four map words and the textures they designate:
      null exactly for no texture, and equal words exactly for the same
      texture. */
  ghost predicate LinkedWords(maps: seq<u64>, textures: seq<Texture?>) {
    && |maps| == NUM_MAPS && |textures| == NUM_MAPS
    && (forall k :: 0 <= k < NUM_MAPS ==> (maps[k] == 0 <==> textures[k] == null))
    && (forall j, k :: 0 <= j < NUM_MAPS && 0 <= k < NUM_MAPS && maps[j] != 0 ==>
          (maps[j] == maps[k] <==> textures[j] == textures[k]))
  }

  /** Translating the map words of one space into the other keeps them
      linked: null stays null, and distinct pointers into the region stay
      distinct. */
  lemma LinkedConv(h: u64, to: Space, maps: seq<u64>, textures: seq<Texture?>)
    requires HostBaseOk(h) && AllIn(h, to.Other(), maps) && LinkedWords(maps, textures)
    ensures LinkedWords(ConvSeq(h, to, maps), textures)
  {
  }

  /** Given the link, no two maps designate the same texture exactly when the
      non-null map words are pairwise distinct. */
  lemma DistinctMapWords(u: Uniforms)
    requires u.Linked()
    ensures u.Distinct() <==>
      forall j, k :: 0 <= j < k < NUM_MAPS && u.Maps()[j] != 0 ==> u.Maps()[j] != u.Maps()[k]
  {
  }

  /** Values of the graph's fields at one moment. */
  datatype TextureView = TextureView(width: int, height: int, buffer: u64)
  datatype UniformsView = UniformsView(
    jointMatrices: u64, jointNMatrices: u64,
    maps: seq<u64>, textures: seq<Option<TextureView>>)
  datatype ProgramView = ProgramView(
    vertexShader: u64, fragmentShader: u64,
    sizeofAttribs: int, sizeofVaryings: int, sizeofUniforms: int, doubleSided: int, enableBlend: int,
    attribs: seq<u64>, varyings: u64, uniformsPtr: u64,
    uniforms: Option<UniformsView>,
    inCoords: seq<Vec4>, outCoords: seq<Vec4>,
    inVaryings: seq<u64>, outVaryings: seq<u64>)

  function TexView(t: Texture?): Option<TextureView>
    reads t
  {
    if t == null then None else Some(TextureView(t.width, t.height, t.buffer))
  }

  /** A texture with its buffer pointer translated. */
  function ConvTexture(h: u64, to: Space, t: Option<TextureView>): Option<TextureView> {
    match t
    case None => None
    case Some(tv) => Some(tv.(buffer := Conv(h, to, tv.buffer)))
  }

  /** Uniforms with every pointer translated: the joint matrices, the four
      maps and the buffer of each texture a map designates. */
  function ConvUniforms(h: u64, to: Space, u: UniformsView): UniformsView {
    u.(jointMatrices := Conv(h, to, u.jointMatrices),
       jointNMatrices := Conv(h, to, u.jointNMatrices),
       maps := ConvSeq(h, to, u.maps),
       textures := seq(|u.textures|, i requires 0 <= i < |u.textures| => ConvTexture(h, to, u.textures[i])))
  }

  /** A program with every pointer field reachable from it translated; the
      other fields are left as they are. */
  function ConvView(h: u64, to: Space, v: ProgramView): ProgramView {
    v.(vertexShader := Conv(h, to, v.vertexShader),
       fragmentShader := Conv(h, to, v.fragmentShader),
       attribs := ConvSeq(h, to, v.attribs),
       varyings := Conv(h, to, v.varyings),
       uniformsPtr := Conv(h, to, v.uniformsPtr),
       uniforms := if v.uniforms.None? then None else Some(ConvUniforms(h, to, v.uniforms.value)),
       inVaryings := ConvSeq(h, to, v.inVaryings),
       outVaryings := ConvSeq(h, to, v.outVaryings))
  }

  /** A program view with the texture snapshots dropped: everything the
      passes translate except the textures' buffers. */
  function Untextured(v: ProgramView): ProgramView {
    v.(uniforms := if v.uniforms.None? then None else Some(v.uniforms.value.(textures := [])))
  }

  predicate TextureIn(h: u64, sp: Space, t: Option<TextureView>) {
    t.Some? ==> PtrIn(h, sp, t.value.buffer)
  }

  predicate UniformsIn(h: u64, sp: Space, u: UniformsView) {
    && PtrIn(h, sp, u.jointMatrices) && PtrIn(h, sp, u.jointNMatrices)
    && AllIn(h, sp, u.maps)
    && forall i :: 0 <= i < |u.textures| ==> TextureIn(h, sp, u.textures[i])
  }

  /** Every pointer reachable from the program is null or points into the
      region as seen from space sp. */
  predicate ViewIn(h: u64, sp: Space, v: ProgramView) {
    && PtrIn(h, sp, v.vertexShader) && PtrIn(h, sp, v.fragmentShader)
    && AllIn(h, sp, v.attribs) && PtrIn(h, sp, v.varyings) && PtrIn(h, sp, v.uniformsPtr)
    && (v.uniforms.Some? ==> UniformsIn(h, sp, v.uniforms.value))
    && AllIn(h, sp, v.inVaryings) && AllIn(h, sp, v.outVaryings)
  }

  /** Whether a pass skips the buffer of map k: only the corrected pass does,
      when an earlier map designates the same texture. */
  function Skipped(u: Uniforms, k: nat, onePerTexture: bool): bool
    requires k < NUM_MAPS
  {
    onePerTexture && u.Tex(k) in u.Textures()[..k]
  }

  /** How many times the steps for the first k maps translate the buffer of t. */
  function Applied(u: Uniforms, t: Texture, k: nat, onePerTexture: bool): nat
    requires k <= NUM_MAPS
  {
    if k == 0 then 0
    else Applied(u, t, k - 1, onePerTexture) + (if u.Tex(k - 1) == t && !Skipped(u, k - 1, onePerTexture) then 1 else 0)
  }

  /** The pass as written translates a texture's buffer once per map that
      designates it. */
  lemma AppliedAsWritten(u: Uniforms, t: Texture)
    ensures Applied(u, t, NUM_MAPS, false) == u.Refs(t)
  {
    assert Applied(u, t, 1, false) == (if u.shadowTex == t then 1 else 0);
    assert Applied(u, t, 2, false) == Applied(u, t, 1, false) + (if u.diffuseTex == t then 1 else 0);
    assert Applied(u, t, 3, false) == Applied(u, t, 2, false) + (if u.specularTex == t then 1 else 0);
    assert Applied(u, t, 4, false) == Applied(u, t, 3, false) + (if u.emissionTex == t then 1 else 0);
  }

  /** One step of the corrected pass: after the steps for the first k maps,
      t's buffer has been translated once if one of those maps designates t,
      and not at all otherwise. */
  lemma AppliedOnceStep(u: Uniforms, t: Texture, k: nat)
    requires k < NUM_MAPS
    requires Applied(u, t, k, true) == if t in u.Textures()[..k] then 1 else 0
    ensures Applied(u, t, k + 1, true) == if t in u.Textures()[..k + 1] then 1 else 0
  {
    var ts := u.Textures();
    assert ts[..k + 1] == ts[..k] + [ts[k]];
  }

  /** The corrected pass translates the buffer of every designated texture
      exactly once, however the maps alias. */
  lemma {:induction false} AppliedOnce(u: Uniforms, t: Texture)
    requires t in u.Textures()
    ensures Applied(u, t, NUM_MAPS, true) == 1
  {
    var ts := u.Textures();
    assert ts[..0] == [];
    AppliedOnceStep(u, t, 0);
    AppliedOnceStep(u, t, 1);
    AppliedOnceStep(u, t, 2);
    AppliedOnceStep(u, t, 3);
    assert ts[..4] == ts;
  }

  /** With no two maps designating the same texture the two passes agree. */
  lemma DistinctAppliedOnce(u: Uniforms, t: Texture)
    requires u.Distinct() && t in u.Textures()
    ensures Applied(u, t, NUM_MAPS, false) == 1
  {
    AppliedAsWritten(u, t);
    var ts := u.Textures();
    if t == ts[0] {
      assert ts[0] != ts[1] && ts[0] != ts[2] && ts[0] != ts[3];
    } else if t == ts[1] {
      assert ts[1] != ts[2] && ts[1] != ts[3];
    } else if t == ts[2] {
      assert ts[2] != ts[3];
    }
  }

  /** The state of the textures after the steps for the first k maps: each
      designated texture is its snapshot tv0 with the buffer translated as
      often as those steps translated it. */
  ghost predicate TexturesAfter(h: u64, to: Space, u: Uniforms, tv0: seq<Option<TextureView>>, k: nat, onePerTexture: bool)
    requires k <= NUM_MAPS
    reads u.TextureSet()
  {
    |tv0| == NUM_MAPS &&
    forall j :: 0 <= j < NUM_MAPS ==> TextureAfter(h, to, u, tv0, j, k, onePerTexture)
  }

  /** The same for the texture of map j. */
  ghost predicate TextureAfter(h: u64, to: Space, u: Uniforms, tv0: seq<Option<TextureView>>, j: nat, k: nat, onePerTexture: bool)
    requires |tv0| == NUM_MAPS && j < NUM_MAPS && k <= NUM_MAPS
    reads u.TextureSet()
  {
    var t := u.Tex(j);
    t != null ==>
      tv0[j].Some? && t.width == tv0[j].value.width && t.height == tv0[j].value.height
      && t.buffer == ConvN(h, to, tv0[j].value.buffer, Applied(u, t, k, onePerTexture))
  }

  /** Uniforms and textures nobody wrote to keep their view. */
  twostate lemma UniformsKept(u: Uniforms)
    requires unchanged(u.Footprint())
    ensures u.View() == old(u.View())
  {
  }

  /** A program graph nobody wrote to keeps its view and stays well formed. */
  twostate lemma ProgramKept(p: Program)
    requires unchanged(p.Footprint())
    ensures p.View() == old(p.View())
    ensures old(p.Valid()) ==> p.Valid()
  {
  }

  /** Before any step the textures are their own snapshot. */
  lemma TexturesAfterStart(h: u64, to: Space, u: Uniforms, onePerTexture: bool)
    ensures TexturesAfter(h, to, u, u.TexViews(), 0, onePerTexture)
  {
  }

  /** Once the four steps have run and every buffer has been translated
      exactly once, the uniforms are the translation of their snapshot. */
  lemma TexturesAfterView(h: u64, to: Space, u: Uniforms, v0: UniformsView, onePerTexture: bool)
    requires |v0.textures| == NUM_MAPS
    requires TexturesAfter(h, to, u, v0.textures, NUM_MAPS, onePerTexture)
    requires forall j :: 0 <= j < NUM_MAPS ==> (u.Textures()[j] == null <==> v0.textures[j].None?)
    requires u.jointMatrices == Conv(h, to, v0.jointMatrices) && u.jointNMatrices == Conv(h, to, v0.jointNMatrices)
    requires u.Maps() == ConvSeq(h, to, v0.maps)
    requires onePerTexture || u.Distinct()
    ensures u.View() == ConvUniforms(h, to, v0)
  {
    var c := ConvUniforms(h, to, v0);
    forall j | 0 <= j < NUM_MAPS
      ensures u.View().textures[j] == c.textures[j]
    {
      assert TextureAfter(h, to, u, v0.textures, j, NUM_MAPS, onePerTexture);
      var t := u.Tex(j);
      if t != null {
        assert t in u.Textures();
        if onePerTexture { AppliedOnce(u, t); } else { DistinctAppliedOnce(u, t); }
        var b := v0.textures[j].value.buffer;
        assert ConvN(h, to, b, 1) == Conv(h, to, b);
      }
    }
  }

  lemma ConvUniformsRoundTrip(h: u64, to: Space, u: UniformsView)
    requires HostBaseOk(h) && UniformsIn(h, to.Other(), u)
    ensures UniformsIn(h, to, ConvUniforms(h, to, u))
    ensures ConvUniforms(h, to.Other(), ConvUniforms(h, to, u)) == u
  {
    var c := ConvUniforms(h, to, u);
    ConvRoundTrip(h, to, u.jointMatrices);
    ConvRoundTrip(h, to, u.jointNMatrices);
    ConvSeqRoundTrip(h, to, u.maps);
    forall i | 0 <= i < |u.textures|
      ensures TextureIn(h, to, c.textures[i])
      ensures ConvTexture(h, to.Other(), c.textures[i]) == u.textures[i]
    {
      if u.textures[i].Some? {
        ConvRoundTrip(h, to, u.textures[i].value.buffer);
      }
    }
    assert ConvUniforms(h, to.Other(), c).textures == u.textures;
  }

  /** The deep round trip on values: translating every pointer of a graph
      into the other space and back restores every field, and the
      intermediate graph points into the other space throughout. */
  lemma ConvViewRoundTrip(h: u64, to: Space, v: ProgramView)
    requires HostBaseOk(h) && ViewIn(h, to.Other(), v)
    ensures ViewIn(h, to, ConvView(h, to, v))
    ensures ConvView(h, to.Other(), ConvView(h, to, v)) == v
  {
    ConvRoundTrip(h, to, v.vertexShader);
    ConvRoundTrip(h, to, v.fragmentShader);
    ConvRoundTrip(h, to, v.varyings);
    ConvRoundTrip(h, to, v.uniformsPtr);
    ConvSeqRoundTrip(h, to, v.attribs);
    ConvSeqRoundTrip(h, to, v.inVaryings);
    ConvSeqRoundTrip(h, to, v.outVaryings);
    if v.uniforms.Some? {
      ConvUniformsRoundTrip(h, to, v.uniforms.value);
    }
  }
}
