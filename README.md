# Host/guest shader bridge of renderer_spike, modelled in Dafny

renderer_spike runs a software rasteriser on the host. It hands its vertex
and fragment shaders to a RISC-V program that runs inside the Spike
emulator. The two sides share one region of 0x9600000 bytes:

- The host sees the region at the address of its `buffer` allocation.
- The guest sees it at `PLUGIN_BASE_ADDR` (0x10000000).
- A mailbox of six 64-bit words at offset 0x08b00000 carries one command
  at a time: a tag word followed by up to five argument words.

The model covers three parts.

- **Mailbox** (`PluginAddress`):
  - the layout constants and command codes;
  - `send_msg`, which writes the argument words and then the tag;
  - `recv_msg`, which copies as many argument words as the observed tag
    implies.
  - The region is an `array<u8>`, and mailbox words are little-endian
    (`Machine`).
- **Host plugin** (`Translate`, `Graph`, `FbPlugin`):
  - the bump arena `allocate`/`deallocate`, and the raw `load`/`store`;
  - the scalar address translation of the two lambdas;
  - the in-place deep translation of a `program_t` graph by
    `structs_to_spike` and `structs_to_host`;
  - `load_shader`;
  - the RPC wrappers `invoke_fragment_shader`, `invoke_vertex_shader`,
    `invoke_update_fbaddr`, `invoke_draw` and `shutdown`.
  - The graph is modelled as three classes: `Program` (for `program_t`),
    `Uniforms` (the pointer fields of `blinn_uniforms_t`) and `Texture`
    (`texture_t`).
  - Pointer fields are 64-bit integers, with 0 for null. Each map pointer
    designates a `Texture` object through a constant reference. The link
    invariant `Linked` ties the two: a map pointer is null exactly when it
    designates no texture, and two maps hold the same word exactly when
    they designate the same texture.
  - Each object also records, as a ghost constant, the host address it sits
    at. `Program.At` and `Uniforms.At` say that the program pointer, the
    uniforms pointer and the maps hold those addresses as seen from the host
    or the guest. Every dereference in the two passes is checked to go
    through a pointer that holds, on the host side, the address of the
    object it reaches.
- **Guest program** (`GuestMain`, for `spike/main.c`):
  - one round of the dispatch loop, from the wait on the mask `31` to the
    `READY` reply;
  - `update_fbaddr` and `draw`, in their `NO_STFB` variant.
  - Shaders are opaque functions of their arguments and of the memory
    they read: the uniforms struct their uniforms pointer designates,
    with the textures of its maps, and the region's contents. The graph
    they see is therefore the guest-side translation the host built.

Host and guest run concurrently in the system. In the model, each host call
runs the guest's round itself at the point where it would spin in
`recv_msg`. The spin of a waiting `recv_msg` is its precondition: the tag
already shares a bit with the mask. For each RPC wrapper, the contract
states:

- the region after the whole exchange;
- what the host gets back;
- that the program graph is as it was before the call.

`load_shader` returns the host address `buffer + slot + e_entry - 0x10000`
(fbplugin.cc:187), not a guest address. `LoadedEntryInRegion` states where
that address lands and what the guest sees there.

## Model

| member | source | states |
|---|---|---|
| Machine.DecodeEncode | framebuffer_plugin/plugin_address.h:42-45 | an integer stored as n little-endian bytes loads back as itself (how a mailbox word survives the byte region) |
| Machine.Splice | framebuffer_plugin/fbplugin.cc:64 | memcpy into the region keeps its length and puts exactly the copied bytes at the destination range |
| Machine.SpliceFrame | framebuffer_plugin/fbplugin.cc:64 | memcpy into the region changes no byte outside the destination range |
| Machine.WordOfInt32 | spike/main.c:48-51 | an `int` passed where a 64-bit word is read comes back from `(int)` as the same value |
| Machine.WordOfInt64 | framebuffer_plugin/fbplugin.cc:139 | a `ptrdiff_t` sent as a word comes back from `(ptrdiff_t)` as the same value |
| Machine.Int32OfWord | spike/main.c:42-43 | `(int)` of a word agrees with the word modulo 2^32 |
| Machine.Int64OfWord | spike/main.c:37 | `(ptrdiff_t)` of a word agrees with the word modulo 2^64 |
| Machine.Low32 | spike/main.c:37 | `(uint32_t)` of a word agrees with the word modulo 2^32 |
| Machine.Int32OfBits | spike/main.c:49-51 | a float's bits read as `int32_t` and widened to a word give the same 32 bits back when the host reads the low half |
| PluginAddress.LayoutDisjoint | framebuffer_plugin/plugin_address.h:7-10 | the six mailbox words end before the FS slot, FS slot + 0x500000 is the VS slot, VS slot + 0x500000 is the buffer size, and the guest's view fits below 2^64 |
| PluginAddress.BitAnd | framebuffer_plugin/plugin_address.h:57 | bitwise and of two words is at most either operand |
| PluginAddress.BitAndLowBits | framebuffer_plugin/plugin_address.h:16-22 | a single-bit command below bit n is kept by the mask of the n low bits |
| PluginAddress.BitAndBelow | framebuffer_plugin/plugin_address.h:16-22 | bit n does not meet the mask of the bits below it, in either order |
| PluginAddress.IntersectsSelf | framebuffer_plugin/plugin_address.h:57 | a non-zero command passes a wait for itself |
| PluginAddress.ArgCount | framebuffer_plugin/plugin_address.h:60-75 | recv_msg copies FBADDR 1, DRAW 2, VS 2, FS 3 and READY 5 words, at most five for any tag, and none for any other tag |
| PluginAddress.WordAtFrame | framebuffer_plugin/plugin_address.h:37 | a mailbox word depends only on its own eight bytes |
| PluginAddress.WriteWord | framebuffer_plugin/plugin_address.h:42-45 | storing word k makes word k read back as the stored value |
| PluginAddress.WriteWordFrame | framebuffer_plugin/plugin_address.h:42-45 | storing word k leaves every other word and every byte outside word k alone |
| PluginAddress.WriteArgsPlaces | framebuffer_plugin/plugin_address.h:41-42 | the argument loop puts argument i in word i + 1 and leaves the tag, the later words and every byte outside the argument words alone |
| PluginAddress.Received | framebuffer_plugin/plugin_address.h:59-77 | recv_msg's words are exactly argument words 1..argc of the observed tag |
| PluginAddress.SendDelivers | framebuffer_plugin/plugin_address.h:35-46 | after send_msg the tag is the command, word i + 1 holds argument i, and nothing outside the words written changes |
| PluginAddress.SendRecvRoundTrip | framebuffer_plugin/plugin_address.h:35-81 | a message sent with c and received with a mask containing c yields c and, for i below both counts, the argument sent |
| PluginAddress.FbaddrScenario | framebuffer_plugin/plugin_address.h:35-81 | FBADDR sent with 0xABCD is received as the single argument 0xABCD |
| PluginAddress.StoreWord | framebuffer_plugin/plugin_address.h:42-45 | a volatile 64-bit store into the mailbox is WriteWord on the region's contents |
| PluginAddress.WriteArgsStep | framebuffer_plugin/plugin_address.h:41-42 | one more round of the argument loop writes one more word and keeps the tag |
| PluginAddress.ShowsTagAppend | framebuffer_plugin/plugin_address.h:41-45 | a trace whose every state shows tag t still does after a state with tag t is added |
| PluginAddress.StoreArgs | framebuffer_plugin/plugin_address.h:41-42 | the argument loop leaves the words of WriteArgs, and every state a concurrent reader could see during it still shows the old tag |
| PluginAddress.Send | framebuffer_plugin/plugin_address.h:35-46 | send_msg's effect, with the tag written last, once every argument is in place; every earlier state shows the old tag |
| PluginAddress.Recv | framebuffer_plugin/plugin_address.h:54-81 | recv_msg returns the tag, which meets the mask, copies exactly Received into args (nothing when args is null), leaves the rest of args alone, and demands room for argc words |
| Translate.ToGuest | framebuffer_plugin/fbplugin.cc:194-199 | conv_addr_to_spike keeps null and moves a host pointer into the region to the same offset from 0x10000000 |
| Translate.ToHost | framebuffer_plugin/fbplugin.cc:240-245 | conv_addr_to_host keeps null and moves a guest pointer into the region to the same offset from `buffer` |
| Translate.ConvRoundTrip | framebuffer_plugin/fbplugin.cc:194-245 | translating a null or in-region pointer to the other space and back gives it back, and non-null stays non-null |
| Translate.SeenConv | framebuffer_plugin/fbplugin.cc:194-199 | translating a pointer to an in-region host address into the other space gives that address as seen from the other space, inside the region |
| Translate.ConvSeq | framebuffer_plugin/fbplugin.cc:224-231 | an array of pointers translated element by element |
| Translate.ConvSeqRoundTrip | framebuffer_plugin/fbplugin.cc:224-280 | the same round trip for every element of a pointer array |
| Graph.Uniforms.Tex | spike/shaders/fragA.c:60-66 | the texture designated by map k |
| Graph.Uniforms.SetMap | spike/shaders/fragA.c:60-66 | storing one map pointer changes that map only and leaves the joint matrix pointers alone |
| Graph.Uniforms.constructor | spike/shaders/fragA.c:49-70 | blinn_uniforms_t's pointer fields with the given values and textures, at the given host address |
| Graph.Program.constructor | renderer/renderer/core/graphics.h:19-48 | a well-formed program_t with the given shaders, sizes, double_sided and enable_blend flags, attribute, varyings, uniforms and in/out varying pointers, ten zeroed clipping coordinates in each of in_coords and out_coords, at the given host address |
| Graph.Texture.constructor | spike/shaders/fragA.c:5-8 | texture_t with the given fields, at the given host address |
| Graph.LinkedConv | framebuffer_plugin/fbplugin.cc:206-217 | translating in-region map words into the other space keeps them linked to their textures: null exactly for no texture, equal exactly for the same texture |
| Graph.DistinctMapWords | spike/shaders/fragA.c:60-66 | for linked maps, no two maps designate the same texture exactly when the non-null map words are pairwise distinct |
| Graph.AppliedAsWritten | framebuffer_plugin/fbplugin.cc:206-217 | the pass as written translates a texture's buffer once per map designating it |
| Graph.AppliedOnceStep | framebuffer_plugin/fbplugin.cc:206-217 | after the first k maps of the corrected pass, a texture's buffer has been translated once if one of those maps designates it, and not at all otherwise |
| Graph.AppliedOnce | framebuffer_plugin/fbplugin.cc:206-217 | the corrected pass translates each designated texture's buffer exactly once, however the maps alias |
| Graph.DistinctAppliedOnce | framebuffer_plugin/fbplugin.cc:206-217 | with pairwise distinct maps the pass as written also translates each buffer exactly once |
| Graph.UniformsKept | framebuffer_plugin/fbplugin.cc:219-231 | uniforms and their textures whose footprint nobody wrote keep their view |
| Graph.ProgramKept | framebuffer_plugin/fbplugin.cc:93-97 | a program graph nobody wrote while the guest ran keeps its view and stays well formed |
| Graph.TexturesAfterStart | framebuffer_plugin/fbplugin.cc:206 | before the first map step every texture is its own snapshot |
| Graph.TexturesAfterView | framebuffer_plugin/fbplugin.cc:204-217 | once each buffer has been translated exactly once, the uniforms are the translation of their snapshot |
| Graph.ConvUniformsRoundTrip | framebuffer_plugin/fbplugin.cc:204-267 | translating the uniforms and their textures to the other space and back restores them, and the intermediate points into the other space |
| Graph.ConvViewRoundTrip | framebuffer_plugin/fbplugin.cc:192-281 | translating every pointer of the graph to the other space and back restores every field, and the intermediate graph points into the other space |
| GuestMain.GuestMaskAdmits | spike/main.c:28-30 | the guest's mask lets FBADDR, DRAW, FS, VS and STOP through |
| GuestMain.GuestMaskExcludesReady | spike/main.c:28-30 | the guest's mask does not see READY, and READY waiters do not see the mask |
| GuestMain.GuestMaskSelects | spike/main.c:28-30 | the mask is the or of the five commands, admits each and excludes READY |
| GuestMain.Vec4WordsRoundTrip | framebuffer_plugin/fbplugin.cc:118-121 | the host rebuilds from the four reply words exactly the vec4 the guest replied |
| GuestMain.FragmentWordsRoundTrip | framebuffer_plugin/fbplugin.cc:98-103 | the host rebuilds the discard flag and colour the guest replied |
| GuestMain.DrawIndex | spike/main.c:78-85 | the pixel's four bytes lie inside the region |
| GuestMain.DrawnPixel | spike/main.c:78-85 | the drawn pixel reads back as itself, no other byte changes, and it survives the READY reply unless it overlaps the tag word |
| GuestMain.ReadyReply | spike/main.c:34 | after a READY reply the tag word reads READY |
| GuestMain.FragmentReply | spike/main.c:40-51 | after the FS case's reply the tag word reads READY (its argument words are stated by FragmentRound and FbPlugin.Plugin.FragmentServed) |
| GuestMain.VertexReply | spike/main.c:53-61 | after the VS case's reply the tag word reads READY (its argument words are stated by VertexRound and FbPlugin.Plugin.VertexServed) |
| GuestMain.StepEffectReplies | spike/main.c:25-66 | every served command but STOP ends with READY posted; STOP ends the loop, leaves the region alone and is the only command that does; only FBADDR moves the framebuffer |
| GuestMain.FragmentRound | spike/main.c:40-52 | a posted FS for a well-formed program can be served and replies with the fragment shader's result for discard and backface from words 2 and 3 |
| GuestMain.VertexRound | spike/main.c:53-62 | a posted VS with an index in range can be served and replies with the vertex shader's result for attribute and varying i |
| GuestMain.FbaddrRound | spike/main.c:32-35 | a posted FBADDR can be served, sets the framebuffer to word 1 and replies READY |
| GuestMain.DrawRound | spike/main.c:36-39 | a posted DRAW landing in the region can be served, stores the pixel and replies READY |
| GuestMain.StopRound | spike/main.c:63-64 | a posted STOP can always be served, ends the loop and changes nothing |
| GuestMain.Guest.constructor | spike/main.c:18 | color_buffer starts out null |
| GuestMain.Guest.Start | spike/main.c:24 | the first act is one READY with no arguments |
| GuestMain.Guest.UpdateFbaddr | spike/main.c:69-76 | update_fbaddr records the address |
| GuestMain.Guest.Draw | spike/main.c:78-85 | draw copies the pixel's four bytes to color_buffer + 4 * offset and nothing else |
| GuestMain.Guest.ServeFbaddr | spike/main.c:32-35 | the FBADDR case records the address and replies READY |
| GuestMain.Guest.ServeDraw | spike/main.c:36-39 | the DRAW case stores the pixel and replies READY |
| GuestMain.Guest.ServeFragment | spike/main.c:40-52 | the FS case replies the fragment shader's discard and colour |
| GuestMain.Guest.ServeVertex | spike/main.c:53-62 | the VS case replies the vertex shader's position |
| GuestMain.Guest.Dispatch | spike/main.c:31-65 | the switch on the received command has the effect StepEffect gives |
| GuestMain.Guest.Await | spike/main.c:26-30 | the zeroed argument buffer receives the posted command and its first argument words |
| GuestMain.Guest.Step | spike/main.c:25-66 | one round of the loop has exactly the effect StepEffect gives |
| FbPlugin.AlignUp | framebuffer_plugin/fbplugin.cc:73-74 | the cursor is rounded up to the next multiple of 16, by at most 15, and left alone when aligned |
| FbPlugin.OffsetsDisjoint | framebuffer_plugin/fbplugin.cc:71-81 | any sequence of allocations yields 16-aligned blocks in increasing order, at or after the start, pairwise disjoint and within the final cursor |
| FbPlugin.ShaderSlot | framebuffer_plugin/fbplugin.cc:151-153 | the slot for a shader type lies after the mailbox and inside the region |
| FbPlugin.LoadResult | framebuffer_plugin/fbplugin.cc:155-187 | load_shader returns null when the file does not open, is shorter than an ELF-64 header, lacks the magic, or does not end within 0x500000 bytes, and otherwise buffer + slot + e_entry - 0x10000 |
| FbPlugin.CopiedLength | framebuffer_plugin/fbplugin.cc:177 | the bounded read copies the whole file or exactly 0x500000 bytes, whichever is less |
| FbPlugin.LoadedEntryInRegion | framebuffer_plugin/fbplugin.cc:187 | for an image whose entry lies in its slot, the returned pointer is inside the region and the guest sees it at the same place in the slot |
| FbPlugin.VertexReplyOverflow | framebuffer_plugin/fbplugin.cc:109-114 | a four-word reply buffer cannot hold the five words recv_msg copies for READY; five words can |
| FbPlugin.AsWrittenBuffer | framebuffer_plugin/fbplugin.cc:206-217 | after the pass as written, a texture's buffer has been translated once per map designating it |
| FbPlugin.CorrectedBuffer | framebuffer_plugin/fbplugin.cc:206-217 | after the corrected pass, every texture's buffer has been translated exactly once |
| FbPlugin.AliasedBufferMisplaced | framebuffer_plugin/fbplugin.cc:206-217 | a buffer translated twice is not where the guest expects it unless the host buffer sits at 0x10000000 |
| FbPlugin.AliasedBufferReturns | framebuffer_plugin/fbplugin.cc:256-267 | on the way back the pass as written translates the aliased buffer twice again, which restores it unless its guest-side value is null |
| FbPlugin.AliasedBufferLost | framebuffer_plugin/fbplugin.cc:206-267 | with the host buffer at 0x20000000, a texture at the start of the region shared by two maps becomes null, and stays null on the way back |
| FbPlugin.DrawLandsAtHostPixel | framebuffer_plugin/fbplugin.cc:125-141 | after update_fbaddr with host framebuffer fb, a pixel drawn at offset lands at region index, and host address, fb + 4 * offset |
| FbPlugin.Plugin.constructor | framebuffer_plugin/fbplugin.cc:28-34 | a fresh region of 0x9600000 bytes and an empty arena |
| FbPlugin.Plugin.Load | framebuffer_plugin/fbplugin.cc:53-60 | load returns exactly the len bytes of the region at offset |
| FbPlugin.Plugin.Store | framebuffer_plugin/fbplugin.cc:62-69 | store writes the bytes at offset and changes nothing else, so a later load of the range returns them |
| FbPlugin.Plugin.Allocate | framebuffer_plugin/fbplugin.cc:71-81 | the block is handed out at the rounded-up cursor, 16-aligned relative to the buffer, and the cursor moves past it |
| FbPlugin.Plugin.Deallocate | framebuffer_plugin/fbplugin.cc:83-86 | deallocate changes nothing |
| FbPlugin.Plugin.MapToSpike | framebuffer_plugin/fbplugin.cc:206-207 | one map going to the guest: the buffer is translated through the map while the map still holds the texture's host address (unless the corrected pass already did it), then the map pointer |
| FbPlugin.Plugin.MapToHost | framebuffer_plugin/fbplugin.cc:256-258 | one map going back: the map pointer first, then the buffer through it, which then holds the texture's host address again |
| FbPlugin.Plugin.MapsToSpike | framebuffer_plugin/fbplugin.cc:206-217 | the four maps are translated and hold their textures' guest addresses, they stay linked, and each texture's buffer is translated as often as the pass reaches it |
| FbPlugin.Plugin.MapsToHost | framebuffer_plugin/fbplugin.cc:256-267 | the same on the way back, ending with the maps at their textures' host addresses |
| FbPlugin.Plugin.UniformsToSpike | framebuffer_plugin/fbplugin.cc:203-218 | joint matrix pointers and maps translated to the guest, link invariant kept |
| FbPlugin.Plugin.UniformsToHost | framebuffer_plugin/fbplugin.cc:253-268 | the same translated back |
| FbPlugin.Plugin.FieldsTo | framebuffer_plugin/fbplugin.cc:222-231 | every pointer field of program_t, including the three attribute and twenty varying pointers, is translated, and every non-pointer field is kept |
| FbPlugin.Plugin.StructsToSpike | framebuffer_plugin/fbplugin.cc:192-235 | everything but texture buffers is translated exactly once; buffers as often as reached; with one translation per texture (or distinct maps) the graph is the translation of the one before; every read goes through a pointer holding the host address of its object, the program pointer is translated last, and afterwards the program pointer, uniforms pointer and maps hold the guest addresses of the same objects |
| FbPlugin.Plugin.StructsToHost | framebuffer_plugin/fbplugin.cc:238-281 | the same going back: the program pointer is translated first and every read goes through it, and the uniforms are reached through the translated uniforms pointer; afterwards the pointers hold host addresses again |
| FbPlugin.Plugin.StructsRoundTrip | framebuffer_plugin/fbplugin.cc:91-97 | structs_to_spike then structs_to_host restores every field of the graph and the program pointer, when each texture is reached once (the corrected passes, or no two maps sharing a texture) |
| FbPlugin.Plugin.LoadShader | framebuffer_plugin/fbplugin.cc:149-188 | returns LoadResult; writes nothing when the header is rejected, else copies the bounded prefix into the slot and nothing else |
| FbPlugin.Plugin.Post | framebuffer_plugin/fbplugin.cc:93-94 | wait for READY and send the command: tag and every argument in place |
| FbPlugin.Plugin.CollectReply | framebuffer_plugin/fbplugin.cc:95 | the reply is the five words recv_msg copies for READY |
| FbPlugin.Plugin.ExchangeFragment | framebuffer_plugin/fbplugin.cc:93-95 | FS is sent with program, discard and backface; the reply is the fragment shader's result on the region as sent, and the region holds that reply |
| FbPlugin.Plugin.FragmentServed | framebuffer_plugin/fbplugin.cc:95 | once FS is posted, the guest serves it and the host collects five words: the fragment shader's discard flag and colour on the program and region as sent |
| FbPlugin.Plugin.ExchangeAndRestore | framebuffer_plugin/fbplugin.cc:93-97 | the same, after which the graph is the host translation of the guest graph it was |
| FbPlugin.Plugin.InvokeFragmentShader | framebuffer_plugin/fbplugin.cc:88-105 | when each pass reaches every texture once (the corrected passes, or no two maps sharing a texture), the host gets the discard flag and colour the shader computes on the guest's translation of the program, its uniforms and their textures, and the graph is restored exactly |
| FbPlugin.Plugin.ExchangeVertex | framebuffer_plugin/fbplugin.cc:112-114 | VS is sent with program and index; the first four reply words are the vertex shader's result for attribute and varying i |
| FbPlugin.Plugin.VertexServed | framebuffer_plugin/fbplugin.cc:114 | once VS is posted, the guest serves it and the host collects five words, the first four the vertex shader's position for attribute and varying i |
| FbPlugin.Plugin.ExchangeVertexAndRestore | framebuffer_plugin/fbplugin.cc:112-116 | the same, after which the graph is the host translation of the guest graph it was |
| FbPlugin.Plugin.InvokeVertexShader | framebuffer_plugin/fbplugin.cc:107-123 | when each pass reaches every texture once, and with a five-word reply buffer, the host gets the position the shader computes on the guest's translation of the program, its uniforms and their textures, and the graph is restored exactly |
| FbPlugin.Plugin.InvokeUpdateFbaddr | framebuffer_plugin/fbplugin.cc:125-134 | the guest's framebuffer becomes the guest translation of addr (null stays null) and READY is posted |
| FbPlugin.Plugin.InvokeDraw | framebuffer_plugin/fbplugin.cc:136-141 | the guest stores the pixel at color_buffer + 4 * offset and replies READY; the framebuffer address is kept |
| FbPlugin.Plugin.Shutdown | framebuffer_plugin/fbplugin.cc:143-147 | STOP is posted with no arguments after READY |

## Left out

- Shader bodies (spike/shaders/*.c) are opaque functions of their pointer arguments, of the uniforms and textures their uniforms pointer reaches, and of the region's contents. Their floating-point work, and any memory they write besides the reply, are not modelled.
- The spin-wait in recv_msg and the two threads are not modelled. Each host call runs the guest's round at the point where it would spin. A waiting recv_msg's precondition is that its mask already sees the tag.
- The following are not modelled:
  - the plugin constructor's thread creation and argv building, the destructor, and the mmio registration (fbplugin.cc:28-51, 284-325);
  - the global fb_plugin;
  - printf logging.
- fopen/fread/feof are not modelled. A file is its contents, or None when it cannot be opened. A read at end of file is a read that ran short.
- The inline-asm CSR and stfb paths of update_fbaddr and draw are not modelled: the model is the `NO_STFB` build.
- The program graph lives as objects, not as bytes inside the arena. Each object's host address is a ghost constant that the pointers are checked against; the bytes of the structs at those addresses are not modelled. Aliasing between graph fields and the mailbox or shader slots is not modelled, and the lemma FbPlugin.GraphApart states the separation the model relies on.
- The guest dereferences args[0] as the program. The model hands the guest the same Program object, and does not model that the pointer it receives designates it.
- FbPlugin.Plugin.Allocate: does not model the missing bound check against the region size, beyond stating the cursor that results; a cursor past 0x9600000 is not flagged.
- PluginAddress.Send: variadic arguments narrower than 64 bits are modelled as widened by the C promotion rules: sign extension for `int`, zero extension for `uint32_t`. Their undefined upper bits are not modelled.
- The four unrolled statement pairs per map in structs_to_spike/structs_to_host are modelled as a four-round loop over the maps, in the same order.
- GuestMain.CanServe: the guest's VS round requires the index to lie inside shader_attribs. The DRAW round requires the four bytes to lie inside the region. The source does not check either, and out-of-range accesses there are undefined behaviour.
- FbPlugin.Plugin.InvokeVertexShader: models the corrected five-word reply buffer (see Findings).
- Graph.Program.constructor: the body of program_create is not part of this model, so the constructor takes every pointer field as given; that in_coords and out_coords start zeroed is the model's choice, not something the source states.

## Findings

| source | as written | input that shows it | evidently intended | confidence | as-written member | corrected member |
|---|---|---|---|---|---|---|
| framebuffer_plugin/fbplugin.cc:206-217 | each map's texture buffer is translated once per map, so a texture designated by two maps is translated twice and the guest reads it at the wrong address | any host buffer address other than 0x10000000, with shadow_map and diffuse_map designating the same texture whose buffer b lies in the region: the guest sees the buffer at the translation of the translation of b, not at the translation of b (AliasedBufferMisplaced). The way back restores b unless the guest-side value is null (AliasedBufferReturns); with the host buffer at 0x20000000 and b at its start it is null, and the buffer is lost (AliasedBufferLost) | the guest sees each buffer at its single translation | not executed | FbPlugin.AliasedBufferMisplaced | FbPlugin.CorrectedBuffer |
| framebuffer_plugin/fbplugin.cc:109 | `uint64_t ret_args[4]` receives the READY reply, for which recv_msg copies five words | any invoke_vertex_shader call: the fifth word is written past the array | a five-word reply buffer, as invoke_fragment_shader has | not executed | FbPlugin.VertexReplyOverflow | FbPlugin.Plugin.InvokeVertexShader |
