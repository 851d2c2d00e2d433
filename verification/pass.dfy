/**
 * A post-processing pass of the compositor: a uniform table, an attachment
 * table from framebuffer slots to output textures, two render flags, and a
 * `render` that issues a fixed sequence of device commands.  The device is
 * an append-only log of the commands it receives.
 */
module CompositorPass {
  import opened Wrappers

  /** WebGL enum values the pass uses. */
  const COLOR_ATTACHMENT0: nat := 0x8CE0
  const DEPTH_BUFFER_BIT: bv32 := 0x100
  const COLOR_BUFFER_BIT: bv32 := 0x4000
  /** Draw buffers are chosen among COLOR_ATTACHMENT0 .. COLOR_ATTACHMENT0 + MAX_DRAW_BUFFER_OFFSET. */
  const MAX_DRAW_BUFFER_OFFSET: nat := 8

  /** A texture, known only by identity. */
  class Texture {
    constructor ()
    {
    }
  }

  /** A framebuffer, known only by identity. */
  class FrameBuffer {
    constructor ()
    {
    }
  }

  /**
   * The `clearColor` field: falsy, truthy but not an array, or an array
   * giving the colour to clear to.
   */
  datatype ClearColor = NoColorClear | ColorClear | ColorClearTo(r: real, g: real, b: real, a: real)
  {
    predicate Truthy() { !NoColorClear? }
  }

  /** A command received by the device, or an event the pass fires. */
  datatype Command =
    | Attach(fb: FrameBuffer, texture: Texture, slot: nat)
    | BindFrameBuffer(fb: FrameBuffer)
    | DrawBuffers(buffers: seq<nat>)
    | BeforeRender
    | DepthMask(flag: bool)
    | ColorMaskAll
    | SetClearColor(r: real, g: real, b: real, a: real)
    | Clear(mask: bv32)
    | EnableBlend
    | DisableBlend
    | DrawQuad
    | AfterRender
    | UnbindFrameBuffer(fb: FrameBuffer)

  /** The rendering device: everything it has been asked to do, in order. */
  class Device {
    var log: seq<Command>

    constructor ()
      ensures log == []
    {
      log := [];
    }
  }

  // ---------------------------------------------------------------------
  // Key order of the attachment table

  /** A non-empty finite set of naturals has a least element. */
  lemma {:induction false} LeastExists(s: set<nat>)
    requires s != {}
    ensures exists m :: m in s && forall y :: y in s ==> m <= y
    decreases s
  {
    var x :| x in s;
    var below := set y | y in s && y < x;
    if below == {} {
      forall y | y in s
        ensures x <= y
      {
        assert y !in below;
      }
    } else {
      assert x !in below;
      LeastExists(below);
      var m :| m in below && forall y :: y in below ==> m <= y;
      forall y | y in s
        ensures m <= y
      {
        if y < x {
          assert y in below;
        }
      }
    }
  }

  /** The least element of a non-empty set of naturals. */
  function Least(s: set<nat>): (m: nat)
    requires s != {}
    ensures m in s && forall y :: y in s ==> m <= y
  {
    LeastExists(s);
    var m :| m in s && forall y :: y in s ==> m <= y;
    m
  }

  /**
   * The keys of the attachment table in the order a `for ... in` loop visits
   * them: integer-like keys come in ascending numeric order.
   */
  function SortedKeys(s: set<nat>): seq<nat>
    decreases s
  {
    if s == {} then [] else [Least(s)] + SortedKeys(s - {Least(s)})
  }

  /** `SortedKeys` lists every key of the set, and only those, in strictly ascending order. */
  lemma {:induction false} SortedKeysAscending(s: set<nat>)
    ensures forall k :: k in SortedKeys(s) <==> k in s
    ensures forall i, j :: 0 <= i < j < |SortedKeys(s)| ==> SortedKeys(s)[i] < SortedKeys(s)[j]
    decreases s
  {
    if s != {} {
      var m := Least(s);
      SortedKeysAscending(s - {m});
      var r := SortedKeys(s);
      assert r == [m] + SortedKeys(s - {m});
      forall i, j | 0 <= i < j < |r| ensures r[i] < r[j] {
        assert r[j] == SortedKeys(s - {m})[j - 1];
        assert SortedKeys(s - {m})[j - 1] in SortedKeys(s - {m});
        if i > 0 {
          assert r[i] == SortedKeys(s - {m})[i - 1];
        }
      }
    }
  }

  // ---------------------------------------------------------------------
  // Uniforms

  /** `setUniform` on the table: only an existing uniform takes the value. */
  function WithUniform<V>(uniforms: map<string, V>, name: string, value: V): map<string, V>
  {
    if name in uniforms then uniforms[name := value] else uniforms
  }

  /** `getUniform` on the table: the value of an existing uniform, nothing otherwise. */
  function UniformOf<V>(uniforms: map<string, V>, name: string): Option<V>
  {
    if name in uniforms then Some(uniforms[name]) else None
  }

  /**
   * Setting a uniform never adds or removes one; reading it back gives the
   * value set when it exists and nothing when it does not; other uniforms
   * keep their values.
   */
  lemma SetThenGetUniform<V>(uniforms: map<string, V>, name: string, value: V, other: string)
    ensures WithUniform(uniforms, name, value).Keys == uniforms.Keys
    ensures UniformOf(WithUniform(uniforms, name, value), name) == if name in uniforms then Some(value) else None
    ensures name !in uniforms ==> WithUniform(uniforms, name, value) == uniforms
    ensures other != name ==> UniformOf(WithUniform(uniforms, name, value), other) == UniformOf(uniforms, other)
  {
  }

  // ---------------------------------------------------------------------
  // The attachment table

  /** The slot `attachOutput` uses: a falsy attachment means COLOR_ATTACHMENT0. */
  function SlotOf(attachment: nat): (slot: nat)
    ensures slot != 0
    ensures attachment == 0 ==> slot == COLOR_ATTACHMENT0
    ensures attachment != 0 ==> slot == attachment
  {
    if attachment == 0 then COLOR_ATTACHMENT0 else attachment
  }

  /** The table after `attachOutput`: created when missing, the slot overwritten. */
  function Attached(outputs: Option<map<nat, Texture?>>, texture: Texture?, attachment: nat): map<nat, Texture?>
  {
    outputs.GetOr(map[])[SlotOf(attachment) := texture]
  }

  /** The table after `detachOutput`: every slot holding the texture emptied, the keys kept. */
  function Detached(outputs: map<nat, Texture?>, texture: Texture?): map<nat, Texture?>
  {
    map a | a in outputs :: if outputs[a] == texture then null else outputs[a]
  }

  /**
   * Attaching sets exactly one slot; the others keep their texture, and an
   * attachment replaces whatever the slot held before.
   */
  lemma AttachSetsOneSlot(outputs: Option<map<nat, Texture?>>, texture: Texture?, attachment: nat, other: nat)
    ensures Attached(outputs, texture, attachment).Keys == outputs.GetOr(map[]).Keys + {SlotOf(attachment)}
    ensures Attached(outputs, texture, attachment)[SlotOf(attachment)] == texture
    ensures other != SlotOf(attachment) && other in outputs.GetOr(map[]) ==>
              Attached(outputs, texture, attachment)[other] == outputs.GetOr(map[])[other]
    ensures forall t: Texture? :: Attached(Some(Attached(outputs, t, attachment)), texture, attachment) == Attached(outputs, texture, attachment)
  {
  }

  /**
   * Detaching keeps every key; a slot that held the texture becomes empty
   * and every other slot keeps its texture.  Detaching a texture right
   * after attaching it leaves its slot empty.
   */
  lemma DetachEmptiesItsSlots(outputs: map<nat, Texture?>, texture: Texture?, attachment: nat)
    ensures Detached(outputs, texture).Keys == outputs.Keys
    ensures forall a :: a in outputs && outputs[a] == texture ==> Detached(outputs, texture)[a] == null
    ensures forall a :: a in outputs && outputs[a] != texture ==> Detached(outputs, texture)[a] == outputs[a]
    ensures Detached(Attached(Some(outputs), texture, attachment), texture)[SlotOf(attachment)] == null
  {
  }

  /** A table that empties, slot by slot over every key, the slots holding the texture is the detached table. */
  lemma DetachedSlotBySlot(table: map<nat, Texture?>, texture: Texture?, keys: seq<nat>, result: map<nat, Texture?>)
    requires forall a :: a in table <==> a in keys
    requires result.Keys == table.Keys
    requires forall k :: 0 <= k < |keys| ==> result[keys[k]] == if table[keys[k]] == texture then null else table[keys[k]]
    ensures result == Detached(table, texture)
  {
    forall a | a in table
      ensures result[a] == Detached(table, texture)[a]
    {
      var k :| 0 <= k < |keys| && keys[k] == a;
    }
  }

  // ---------------------------------------------------------------------
  // The commands of `bind` and `render`

  /** The `attach` calls of `bind` for the given keys, in order: non-empty slots only. */
  function AttachCommands(fb: FrameBuffer, keys: seq<nat>, outputs: map<nat, Texture?>): seq<Command>
    requires forall k :: k in keys ==> k in outputs
  {
    if keys == [] then []
    else
      var last := keys[|keys| - 1];
      AttachCommands(fb, keys[..|keys| - 1], outputs) +
      if outputs[last] != null then [Attach(fb, outputs[last], last)] else []
  }

  /** The commands of `bind` with a framebuffer: the attachments, then the bind. */
  function BindCommands(fb: FrameBuffer, outputs: Option<map<nat, Texture?>>): seq<Command>
  {
    (if outputs.Some? then
       SortedKeysAscending(outputs.value.Keys);
       AttachCommands(fb, SortedKeys(outputs.value.Keys), outputs.value)
     else []) +
    [BindFrameBuffer(fb)]
  }

  /** Whether a slot is one of the colour attachments `render` may draw to. */
  predicate IsDrawBuffer(slot: nat)
  {
    COLOR_ATTACHMENT0 <= slot <= COLOR_ATTACHMENT0 + MAX_DRAW_BUFFER_OFFSET
  }

  /** The `bufs` list of `render`: the keys that are colour attachments, in key order. */
  function DrawBufferList(keys: seq<nat>): seq<nat>
  {
    if keys == [] then []
    else
      var last := keys[|keys| - 1];
      DrawBufferList(keys[..|keys| - 1]) + if IsDrawBuffer(last) then [last] else []
  }

  /** The `drawBuffersEXT` call of `render`, made only with the extension and a table. */
  function DrawBufferCommands(extension: bool, outputs: Option<map<nat, Texture?>>): seq<Command>
  {
    if extension && outputs.Some? then [DrawBuffers(DrawBufferList(SortedKeys(outputs.value.Keys)))] else []
  }

  /** The mask `render` clears with. */
  function ClearMask(clearColor: ClearColor): bv32
  {
    if clearColor.Truthy() then DEPTH_BUFFER_BIT | COLOR_BUFFER_BIT else DEPTH_BUFFER_BIT
  }

  /** The clearing commands of `render`, in order. */
  function ClearCommands(clearColor: ClearColor): seq<Command>
  {
    [DepthMask(true)] +
    (if clearColor.Truthy() then [ColorMaskAll] else []) +
    (match clearColor
     case ColorClearTo(r, g, b, a) => [SetClearColor(r, g, b, a)]
     case _ => []) +
    [Clear(ClearMask(clearColor))]
  }

  /** The blend command of `render`. */
  function BlendCommand(blend: bool): Command
  {
    if blend then EnableBlend else DisableBlend
  }

  /** What `render` does before `beforerender`: with a framebuffer, bind it and choose the draw buffers. */
  function BindPhase(fb: FrameBuffer?, extension: bool, outputs: Option<map<nat, Texture?>>): seq<Command>
  {
    if fb != null then BindCommands(fb, outputs) + DrawBufferCommands(extension, outputs) else []
  }

  /** What `render` does after `afterrender`: with a framebuffer, unbind it. */
  function UnbindPhase(fb: FrameBuffer?): seq<Command>
  {
    if fb != null then [UnbindFrameBuffer(fb)] else []
  }

  /** Every command `render` issues, in order. */
  function RenderCommands(fb: FrameBuffer?, extension: bool, outputs: Option<map<nat, Texture?>>,
                          clearColor: ClearColor, blend: bool): seq<Command>
  {
    BindPhase(fb, extension, outputs) + [BeforeRender] + ClearCommands(clearColor) +
    [BlendCommand(blend)] + [DrawQuad] + [AfterRender] + UnbindPhase(fb)
  }

  // ---------------------------------------------------------------------
  // The pass

  class Pass<V> {
    /** The uniform table of the pass's material (uniform name to value). */
    var uniforms: map<string, V>
    /** The attachment table; `None` until the first `attachOutput`. */
    var outputs: Option<map<nat, Texture?>>
    var blendWithPrevious: bool
    var clearColor: ClearColor
    /** The `transparent` flag of the pass's material. */
    var transparent: bool

    constructor (uniforms: map<string, V>)
      ensures this.uniforms == uniforms
      ensures outputs == None && !blendWithPrevious && clearColor == NoColorClear && !transparent
    {
      this.uniforms := uniforms;
      outputs := None;
      blendWithPrevious := false;
      clearColor := NoColorClear;
      transparent := false;
    }

    /** Sets the value of an existing uniform; an unknown name changes nothing. */
    method SetUniform(name: string, value: V)
      modifies this`uniforms
      ensures uniforms == WithUniform(old(uniforms), name, value)
    {
      if name in uniforms {
        uniforms := uniforms[name := value];
      }
    }

    /** The value of an existing uniform, or nothing (`undefined`). */
    method GetUniform(name: string) returns (r: Option<V>)
      ensures r == UniformOf(uniforms, name)
    {
      if name in uniforms {
        return Some(uniforms[name]);
      }
      return None;
    }

    /** Puts the texture in the slot (COLOR_ATTACHMENT0 for a falsy one), creating the table if needed. */
    method AttachOutput(texture: Texture?, attachment: nat)
      modifies this`outputs
      ensures outputs == Some(Attached(old(outputs), texture, attachment))
    {
      if outputs.None? {
        outputs := Some(map[]);
      }
      var slot := if attachment == 0 then COLOR_ATTACHMENT0 else attachment;
      outputs := Some(outputs.value[slot := texture]);
    }

    /** Empties every slot holding exactly this texture, visiting the slots in key order. */
    method DetachOutput(texture: Texture?)
      modifies this`outputs
      ensures outputs == if old(outputs).None? then None else Some(Detached(old(outputs).value, texture))
    {
      if outputs.None? {
        return;
      }
      ghost var table := outputs.value;
      var keys := SortedKeys(outputs.value.Keys);
      SortedKeysAscending(table.Keys);
      for i := 0 to |keys|
        invariant outputs.Some? && outputs.value.Keys == table.Keys
        invariant forall k :: 0 <= k < |keys| ==>
          outputs.value[keys[k]] == if k < i && table[keys[k]] == texture then null else table[keys[k]]
      {
        if outputs.value[keys[i]] == texture {
          outputs := Some(outputs.value[keys[i] := null]);
        }
      }
      DetachedSlotBySlot(table, texture, keys, outputs.value);
    }

    /** Attaches the non-empty slots to the framebuffer in key order, then binds it. */
    method Bind(device: Device, fb: FrameBuffer)
      modifies device
      ensures device.log == old(device.log) + BindCommands(fb, outputs)
    {
      if outputs.Some? {
        var table := outputs.value;
        var keys := SortedKeys(table.Keys);
        SortedKeysAscending(table.Keys);
        for i := 0 to |keys|
          invariant device.log == old(device.log) + AttachCommands(fb, keys[..i], table)
        {
          assert keys[..i + 1][..i] == keys[..i];
          ghost var attached := AttachCommands(fb, keys[..i], table);
          if table[keys[i]] != null {
            device.log := device.log + [Attach(fb, table[keys[i]], keys[i])];
            ConcatAssoc(old(device.log), attached, [Attach(fb, table[keys[i]], keys[i])]);
          } else {
            assert attached + [] == attached;
          }
        }
        assert keys[..|keys|] == keys;
      } else {
        assert old(device.log) + [] == old(device.log);
      }
      ghost var attached := if outputs.Some? then AttachCommands(fb, SortedKeys(outputs.value.Keys), outputs.value) else [];
      device.log := device.log + [BindFrameBuffer(fb)];
      ConcatAssoc(old(device.log), attached, [BindFrameBuffer(fb)]);
    }

    /** Unbinds the framebuffer; the source calls it only with one. */
    method Unbind(device: Device, fb: FrameBuffer)
      modifies device
      ensures device.log == old(device.log) + [UnbindFrameBuffer(fb)]
    {
      device.log := device.log + [UnbindFrameBuffer(fb)];
    }

    /**
     * Renders the pass: with a framebuffer, binds it and (given the
     * draw-buffers extension and a table) selects the draw buffers; then
     * fires `beforerender`, clears, sets the blend state, draws, fires
     * `afterrender` and, with a framebuffer, unbinds it.  The material is
     * transparent exactly when the pass blends with the previous one.
     */
    method Render(device: Device, fb: FrameBuffer?, extension: bool)
      modifies device, this`transparent
      ensures device.log == old(device.log) + RenderCommands(fb, extension, outputs, clearColor, blendWithPrevious)
      ensures transparent == blendWithPrevious
    {
      ghost var start := device.log;
      ghost var sent := BindPhase(fb, extension, outputs);
      if fb != null {
        Bind(device, fb);
        SelectDrawBuffers(device, extension);
        ConcatAssoc(start, BindCommands(fb, outputs), DrawBufferCommands(extension, outputs));
      } else {
        assert start + [] == start;
      }
      device.log := device.log + [BeforeRender];
      ConcatAssoc(start, sent, [BeforeRender]);
      sent := sent + [BeforeRender];
      ClearTargets(device);
      ConcatAssoc(start, sent, ClearCommands(clearColor));
      sent := sent + ClearCommands(clearColor);
      SetBlend(device);
      ConcatAssoc(start, sent, [BlendCommand(blendWithPrevious)]);
      sent := sent + [BlendCommand(blendWithPrevious)];
      device.log := device.log + [DrawQuad];
      ConcatAssoc(start, sent, [DrawQuad]);
      sent := sent + [DrawQuad];
      device.log := device.log + [AfterRender];
      ConcatAssoc(start, sent, [AfterRender]);
      sent := sent + [AfterRender];
      if fb != null {
        Unbind(device, fb);
      } else {
        assert device.log + [] == device.log;
      }
      ConcatAssoc(start, sent, UnbindPhase(fb));
    }

    /** The draw-buffer choice of `render`: with the extension and a table, the colour-attachment keys in key order. */
    method SelectDrawBuffers(device: Device, extension: bool)
      modifies device
      ensures device.log == old(device.log) + DrawBufferCommands(extension, outputs)
    {
      if extension && outputs.Some? {
        var keys := SortedKeys(outputs.value.Keys);
        var bufs: seq<nat> := [];
        for i := 0 to |keys|
          invariant bufs == DrawBufferList(keys[..i])
        {
          assert keys[..i + 1][..i] == keys[..i];
          if COLOR_ATTACHMENT0 <= keys[i] <= COLOR_ATTACHMENT0 + MAX_DRAW_BUFFER_OFFSET {
            bufs := bufs + [keys[i]];
          }
        }
        assert keys[..|keys|] == keys;
        device.log := device.log + [DrawBuffers(bufs)];
      }
    }

    /** The clearing step of `render`: depth always, colour when `clearColor` is truthy. */
    method ClearTargets(device: Device)
      modifies device
      ensures device.log == old(device.log) + ClearCommands(clearColor)
    {
      var clearBit := DEPTH_BUFFER_BIT;
      device.log := device.log + [DepthMask(true)];
      if clearColor.Truthy() {
        clearBit := clearBit | COLOR_BUFFER_BIT;
        device.log := device.log + [ColorMaskAll];
        if clearColor.ColorClearTo? {
          device.log := device.log + [SetClearColor(clearColor.r, clearColor.g, clearColor.b, clearColor.a)];
        }
      }
      device.log := device.log + [Clear(clearBit)];
    }

    /** The blend step of `render`: BLEND and the material's transparency follow `blendWithPrevious`. */
    method SetBlend(device: Device)
      modifies device, this`transparent
      ensures device.log == old(device.log) + [BlendCommand(blendWithPrevious)]
      ensures transparent == blendWithPrevious
    {
      if blendWithPrevious {
        device.log := device.log + [EnableBlend];
        transparent := true;
      } else {
        device.log := device.log + [DisableBlend];
        transparent := false;
      }
    }
  }

  // ---------------------------------------------------------------------
  // What `bind` and `render` promise

  /**
   * `bind` attaches exactly the slots holding a texture, each with its own
   * texture, and attaches nothing else.
   */
  lemma {:induction false} AttachCommandsExact(fb: FrameBuffer, keys: seq<nat>, outputs: map<nat, Texture?>)
    requires forall k :: k in keys ==> k in outputs
    ensures forall c :: c in AttachCommands(fb, keys, outputs) ==>
              c.Attach? && c.fb == fb && c.slot in keys && outputs[c.slot] == c.texture
    ensures forall k :: k in keys && outputs[k] != null ==> Attach(fb, outputs[k], k) in AttachCommands(fb, keys, outputs)
  {
    if keys != [] {
      var init := keys[..|keys| - 1];
      AttachCommandsExact(fb, init, outputs);
      forall k | k in keys && outputs[k] != null
        ensures Attach(fb, outputs[k], k) in AttachCommands(fb, keys, outputs)
      {
        if k != keys[|keys| - 1] {
          var i :| 0 <= i < |keys| && keys[i] == k;
          assert k == init[i];
        }
      }
    }
  }

  /** With a table, `bind` attaches the slots holding a texture, then binds the framebuffer last. */
  lemma BindAttachesFilledSlots(fb: FrameBuffer, outputs: Option<map<nat, Texture?>>)
    ensures BindCommands(fb, outputs)[|BindCommands(fb, outputs)| - 1] == BindFrameBuffer(fb)
    ensures forall c :: c in BindCommands(fb, outputs)[..|BindCommands(fb, outputs)| - 1] ==>
              c.Attach? && c.fb == fb && outputs.Some? && c.slot in outputs.value && outputs.value[c.slot] == c.texture
    ensures outputs.Some? ==> forall k :: k in outputs.value && outputs.value[k] != null ==>
              Attach(fb, outputs.value[k], k) in BindCommands(fb, outputs)
  {
    if outputs.Some? {
      SortedKeysAscending(outputs.value.Keys);
      var attach := AttachCommands(fb, SortedKeys(outputs.value.Keys), outputs.value);
      AttachCommandsExact(fb, SortedKeys(outputs.value.Keys), outputs.value);
      assert BindCommands(fb, outputs)[..|BindCommands(fb, outputs)| - 1] == attach;
    }
  }

  /** The `bufs` list keeps exactly the colour-attachment keys, in their original order. */
  lemma {:induction false} DrawBufferListExact(keys: seq<nat>)
    ensures forall x :: x in DrawBufferList(keys) <==> x in keys && IsDrawBuffer(x)
    ensures (forall i, j :: 0 <= i < j < |keys| ==> keys[i] < keys[j]) ==>
              forall i, j :: 0 <= i < j < |DrawBufferList(keys)| ==> DrawBufferList(keys)[i] < DrawBufferList(keys)[j]
  {
    if keys != [] {
      var init, last := keys[..|keys| - 1], keys[|keys| - 1];
      DrawBufferListExact(init);
      forall x | x in keys && IsDrawBuffer(x)
        ensures x in DrawBufferList(keys)
      {
        if x != last {
          var i :| 0 <= i < |keys| && keys[i] == x;
          assert x == init[i];
        }
      }
      if forall i, j :: 0 <= i < j < |keys| ==> keys[i] < keys[j] {
        forall i, j | 0 <= i < j < |init|
          ensures init[i] < init[j]
        {
          assert init[i] == keys[i] && init[j] == keys[j];
        }
        var before := DrawBufferList(init);
        forall y | y in before
          ensures y < last
        {
          var i :| 0 <= i < |init| && init[i] == y;
          assert keys[i] == y;
        }
        var r := DrawBufferList(keys);
        assert r == before + if IsDrawBuffer(last) then [last] else [];
        forall i, j | 0 <= i < j < |r|
          ensures r[i] < r[j]
        {
          if j < |before| {
            assert r[i] == before[i] && r[j] == before[j];
          } else {
            assert r[i] == before[i] && r[i] in before;
          }
        }
      }
    }
  }

  /**
   * With the extension and a table, the draw-buffer list holds exactly the
   * table's keys in [COLOR_ATTACHMENT0, COLOR_ATTACHMENT0 + 8], ascending,
   * slots emptied by `detachOutput` included.
   */
  lemma DrawBuffersAreAttachmentKeys(outputs: map<nat, Texture?>)
    ensures var bufs := DrawBufferList(SortedKeys(outputs.Keys));
            (forall x :: x in bufs <==> x in outputs && COLOR_ATTACHMENT0 <= x <= COLOR_ATTACHMENT0 + 8) &&
            (forall i, j :: 0 <= i < j < |bufs| ==> bufs[i] < bufs[j])
  {
    SortedKeysAscending(outputs.Keys);
    DrawBufferListExact(SortedKeys(outputs.Keys));
  }

  /** The clear mask always holds the depth bit, and holds the colour bit exactly when `clearColor` is truthy. */
  lemma ClearMaskBits(clearColor: ClearColor)
    ensures ClearMask(clearColor) & DEPTH_BUFFER_BIT == DEPTH_BUFFER_BIT
    ensures ClearMask(clearColor) & COLOR_BUFFER_BIT == COLOR_BUFFER_BIT <==> clearColor.Truthy()
    ensures ClearMask(clearColor) & !(DEPTH_BUFFER_BIT | COLOR_BUFFER_BIT) == 0
  {
  }

  /** A command of a render belongs to the bind phase, the clearing commands or the unbind, or is one of the four fixed steps. */
  lemma InRender(fb: FrameBuffer?, extension: bool, outputs: Option<map<nat, Texture?>>, clearColor: ClearColor, blend: bool, c: Command)
    ensures c in RenderCommands(fb, extension, outputs, clearColor, blend) <==>
            c in BindPhase(fb, extension, outputs) || c in ClearCommands(clearColor) || c in UnbindPhase(fb) ||
            c == BeforeRender || c == BlendCommand(blend) || c == DrawQuad || c == AfterRender
  {
  }

  /** The clearing commands: depth mask, colour mask when truthy, clear colour for an array, clear. */
  lemma InClear(clearColor: ClearColor, c: Command)
    ensures c in ClearCommands(clearColor) <==>
            c == DepthMask(true) || (clearColor.Truthy() && c == ColorMaskAll) ||
            (clearColor.ColorClearTo? && c == SetClearColor(clearColor.r, clearColor.g, clearColor.b, clearColor.a)) ||
            c == Clear(ClearMask(clearColor))
  {
  }

  /**
   * Every render turns the depth mask on and clears with `ClearMask`; it
   * turns the colour mask on exactly when `clearColor` is truthy, and sets
   * the clear colour only when `clearColor` is an array, to that colour.
   */
  lemma RenderClears(fb: FrameBuffer?, extension: bool, outputs: Option<map<nat, Texture?>>, clearColor: ClearColor, blend: bool)
    ensures DepthMask(true) in RenderCommands(fb, extension, outputs, clearColor, blend)
    ensures Clear(ClearMask(clearColor)) in RenderCommands(fb, extension, outputs, clearColor, blend)
    ensures ColorMaskAll in RenderCommands(fb, extension, outputs, clearColor, blend) <==> clearColor.Truthy()
    ensures forall c :: c in RenderCommands(fb, extension, outputs, clearColor, blend) && c.SetClearColor? ==>
              clearColor.ColorClearTo? && c == SetClearColor(clearColor.r, clearColor.g, clearColor.b, clearColor.a)
    ensures clearColor.ColorClearTo? ==>
              SetClearColor(clearColor.r, clearColor.g, clearColor.b, clearColor.a) in RenderCommands(fb, extension, outputs, clearColor, blend)
  {
    InRender(fb, extension, outputs, clearColor, blend, DepthMask(true));
    InClear(clearColor, DepthMask(true));
    InRender(fb, extension, outputs, clearColor, blend, Clear(ClearMask(clearColor)));
    InClear(clearColor, Clear(ClearMask(clearColor)));
    InRender(fb, extension, outputs, clearColor, blend, ColorMaskAll);
    InClear(clearColor, ColorMaskAll);
    InBindPhase(fb, extension, outputs, ColorMaskAll);
    forall c | c in RenderCommands(fb, extension, outputs, clearColor, blend) && c.SetClearColor?
      ensures clearColor.ColorClearTo? && c == SetClearColor(clearColor.r, clearColor.g, clearColor.b, clearColor.a)
    {
      InRender(fb, extension, outputs, clearColor, blend, c);
      InClear(clearColor, c);
      InBindPhase(fb, extension, outputs, c);
    }
    if clearColor.ColorClearTo? {
      var setColor := SetClearColor(clearColor.r, clearColor.g, clearColor.b, clearColor.a);
      InRender(fb, extension, outputs, clearColor, blend, setColor);
      InClear(clearColor, setColor);
    }
  }

  /** Every render enables BLEND when the pass blends with the previous one and disables it otherwise. */
  lemma RenderBlend(fb: FrameBuffer?, extension: bool, outputs: Option<map<nat, Texture?>>, clearColor: ClearColor, blend: bool)
    ensures EnableBlend in RenderCommands(fb, extension, outputs, clearColor, blend) <==> blend
    ensures DisableBlend in RenderCommands(fb, extension, outputs, clearColor, blend) <==> !blend
  {
    InRender(fb, extension, outputs, clearColor, blend, EnableBlend);
    InClear(clearColor, EnableBlend);
    InBindPhase(fb, extension, outputs, EnableBlend);
    InRender(fb, extension, outputs, clearColor, blend, DisableBlend);
    InClear(clearColor, DisableBlend);
    InBindPhase(fb, extension, outputs, DisableBlend);
  }

  /** One command of the bind phase: an attachment, the bind, or (with the extension and a table) the draw buffers. */
  lemma InBindPhase(fb: FrameBuffer?, extension: bool, outputs: Option<map<nat, Texture?>>, c: Command)
    ensures c in BindPhase(fb, extension, outputs) ==>
              c.Attach? || c.BindFrameBuffer? || (c.DrawBuffers? && extension && outputs.Some?)
  {
    BindPhaseCommands(fb, extension, outputs);
  }

  /**
   * The commands before `beforerender` only attach and bind, and choose the
   * draw buffers when a framebuffer, the extension and a table are all there.
   */
  lemma BindPhaseCommands(fb: FrameBuffer?, extension: bool, outputs: Option<map<nat, Texture?>>)
    ensures forall c :: c in BindPhase(fb, extension, outputs) ==>
              c.Attach? || c.BindFrameBuffer? || (c.DrawBuffers? && extension && outputs.Some?)
    ensures fb == null ==> BindPhase(fb, extension, outputs) == []
  {
    if fb != null {
      BindAttachesFilledSlots(fb, outputs);
      var b := BindCommands(fb, outputs);
      forall c | c in b
        ensures c.Attach? || c.BindFrameBuffer?
      {
        if c != b[|b| - 1] {
          var i :| 0 <= i < |b| && b[i] == c;
          assert c in b[..|b| - 1];
        }
      }
    }
  }

  /**
   * A framebuffer is bound, and unbound as the very last command, exactly
   * when one is given; the draw buffers are chosen exactly when, in
   * addition, the extension is present and the pass has a table.
   */
  lemma RenderFramebuffer(fb: FrameBuffer?, extension: bool, outputs: Option<map<nat, Texture?>>, clearColor: ClearColor, blend: bool)
    ensures var cmds := RenderCommands(fb, extension, outputs, clearColor, blend);
            (fb != null ==> BindFrameBuffer(fb) in cmds && cmds[|cmds| - 1] == UnbindFrameBuffer(fb)) &&
            (fb == null ==> cmds[|cmds| - 1] == AfterRender &&
                            forall c :: c in cmds ==> !c.BindFrameBuffer? && !c.UnbindFrameBuffer? && !c.Attach?) &&
            ((exists c :: c in cmds && c.DrawBuffers?) <==> fb != null && extension && outputs.Some?)
  {
    var cmds := RenderCommands(fb, extension, outputs, clearColor, blend);
    var bind := BindPhase(fb, extension, outputs);
    if fb != null {
      var b := BindCommands(fb, outputs);
      assert b[|b| - 1] == BindFrameBuffer(fb);
      assert BindFrameBuffer(fb) in bind;
      InRender(fb, extension, outputs, clearColor, blend, BindFrameBuffer(fb));
    }
    if fb != null && extension && outputs.Some? {
      var draw := DrawBuffers(DrawBufferList(SortedKeys(outputs.value.Keys)));
      assert draw in bind;
      InRender(fb, extension, outputs, clearColor, blend, draw);
    } else {
      forall c | c in cmds
        ensures !c.DrawBuffers?
        ensures fb == null ==> !c.BindFrameBuffer? && !c.UnbindFrameBuffer? && !c.Attach?
      {
        InRender(fb, extension, outputs, clearColor, blend, c);
        InClear(clearColor, c);
        InBindPhase(fb, extension, outputs, c);
        BindPhaseCommands(fb, extension, outputs);
      }
    }
  }

  /** The position of a command in the order `render` issues them. */
  function Step(c: Command): nat
  {
    match c
    case Attach(_, _, _) => 0
    case BindFrameBuffer(_) => 1
    case DrawBuffers(_) => 2
    case BeforeRender => 3
    case DepthMask(_) => 4
    case ColorMaskAll => 5
    case SetClearColor(_, _, _, _) => 6
    case Clear(_) => 7
    case EnableBlend => 8
    case DisableBlend => 8
    case DrawQuad => 9
    case AfterRender => 10
    case UnbindFrameBuffer(_) => 11
  }

  /** A command list that follows the order of `render`. */
  predicate InRenderOrder(cmds: seq<Command>)
  {
    forall i, j :: 0 <= i < j < |cmds| ==> Step(cmds[i]) <= Step(cmds[j])
  }

  /** Two lists in order, the first ending no later than the second starts, are in order together. */
  lemma InRenderOrderAppend(a: seq<Command>, b: seq<Command>, mid: nat, hi: nat)
    requires InRenderOrder(a) && InRenderOrder(b) && mid <= hi
    requires forall c :: c in a ==> Step(c) <= mid
    requires forall c :: c in b ==> mid <= Step(c) <= hi
    ensures InRenderOrder(a + b)
    ensures forall c :: c in a + b ==> Step(c) <= hi
  {
    forall i, j | 0 <= i < j < |a + b|
      ensures Step((a + b)[i]) <= Step((a + b)[j])
    {
      if i < |a| && j >= |a| {
        assert (a + b)[i] in a;
        assert (a + b)[j] == b[j - |a|];
        assert b[j - |a|] in b;
      } else if i >= |a| {
        assert (a + b)[i] == b[i - |a|];
        assert (a + b)[j] == b[j - |a|];
      }
    }
  }

  /** The bind phase attaches, then binds, then chooses the draw buffers. */
  lemma BindPhaseInOrder(fb: FrameBuffer?, extension: bool, outputs: Option<map<nat, Texture?>>)
    ensures InRenderOrder(BindPhase(fb, extension, outputs))
    ensures forall c :: c in BindPhase(fb, extension, outputs) ==> Step(c) <= 2
  {
    BindPhaseCommands(fb, extension, outputs);
    if fb != null {
      var b := BindCommands(fb, outputs);
      BindAttachesFilledSlots(fb, outputs);
      forall i, j | 0 <= i < j < |b|
        ensures Step(b[i]) <= Step(b[j])
      {
        assert b[i] in b[..|b| - 1];
      }
      InRenderOrderAppend(b, DrawBufferCommands(extension, outputs), 2, 2);
    }
  }

  /** The clearing commands come in the order depth mask, colour mask, clear colour, clear. */
  lemma ClearInOrder(clearColor: ClearColor)
    ensures InRenderOrder(ClearCommands(clearColor))
    ensures forall c :: c in ClearCommands(clearColor) ==> 4 <= Step(c) <= 7
  {
  }

  /**
   * `render` issues its commands in a fixed order: attachments, bind,
   * draw buffers, `beforerender`, depth mask, colour mask, clear colour,
   * clear, blend state, draw, `afterrender`, unbind.
   */
  lemma RenderInOrder(fb: FrameBuffer?, extension: bool, outputs: Option<map<nat, Texture?>>, clearColor: ClearColor, blend: bool)
    ensures InRenderOrder(RenderCommands(fb, extension, outputs, clearColor, blend))
  {
    var s0 := BindPhase(fb, extension, outputs);
    BindPhaseInOrder(fb, extension, outputs);
    var s1 := s0 + [BeforeRender];
    InRenderOrderAppend(s0, [BeforeRender], 3, 3);
    var clear := ClearCommands(clearColor);
    ClearInOrder(clearColor);
    var s2 := s1 + clear;
    InRenderOrderAppend(s1, clear, 4, 7);
    var s3 := s2 + [BlendCommand(blend)];
    InRenderOrderAppend(s2, [BlendCommand(blend)], 8, 8);
    var s4 := s3 + [DrawQuad];
    InRenderOrderAppend(s3, [DrawQuad], 9, 9);
    var s5 := s4 + [AfterRender];
    InRenderOrderAppend(s4, [AfterRender], 10, 10);
    InRenderOrderAppend(s5, UnbindPhase(fb), 11, 11);
  }
}
