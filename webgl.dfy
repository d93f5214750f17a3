/**
 * The slice of the WebGL rendering context that the texture cache uses.
 *
 * The context is foreign code: it is modelled as a log of the calls made on
 * it, a counter that hands out fresh texture handles, and a replay function
 * that gives the two pieces of global GL state the cache relies on (the
 * texture bound to TEXTURE_2D and the UNPACK_PREMULTIPLY_ALPHA_WEBGL flag).
 */
module WebGl {
  import opened Optional

  /** A WebGLTexture object; fresh objects are told apart by their number. */
  type Handle = nat
  /** An HTMLImageElement object, opaque to the cache. */
  type ImageRef = nat

  // GL enumerants, with the values the WebGL 1.0 specification gives them.
  const TEXTURE_2D: int := 0x0DE1
  const TEXTURE_MAG_FILTER: int := 0x2800
  const TEXTURE_MIN_FILTER: int := 0x2801
  const LINEAR: int := 0x2601
  const LINEAR_MIPMAP_LINEAR: int := 0x2703
  const RGBA: int := 0x1908
  const UNSIGNED_BYTE: int := 0x1401
  const UNPACK_PREMULTIPLY_ALPHA_WEBGL: int := 0x9241

  /** One call made on the rendering context. */
  datatype GlEvent =
    | CreateTexture(texture: Handle)
    | BindTexture(target: int, bound: Option<Handle>)
    | TexParameteri(target: int, pname: int, param: int)
    | PixelStorei(pname: int, param: int)
    | TexImage2D(target: int, level: int, internalFormat: int, format: int, texelType: int, image: ImageRef)
    | GenerateMipmap(target: int)
    | DeleteTexture(texture: Handle)

  /** The global context state that the cache's calls read or change. */
  datatype GlState = GlState(bound: Option<Handle>, unpackPremultiply: bool)

  /** A fresh context: nothing bound, premultiplication on upload off. */
  const InitialState := GlState(None, false)

  /** The effect of one call on the global state. */
  function Step(st: GlState, e: GlEvent): GlState
  {
    match e
    case BindTexture(target, b) =>
      if target == TEXTURE_2D then st.(bound := b) else st
    case PixelStorei(pname, param) =>
      if pname == UNPACK_PREMULTIPLY_ALPHA_WEBGL then st.(unpackPremultiply := param != 0) else st
    case DeleteTexture(t) =>
      // deleting the bound texture unbinds it
      if st.bound == Some(t) then st.(bound := None) else st
    case _ => st
  }

  /** The global state after the calls of `log`, starting from a fresh context. */
  function Replay(log: seq<GlEvent>): GlState
  {
    if log == [] then InitialState else Step(Replay(log[..|log| - 1]), log[|log| - 1])
  }

  lemma ReplayAppend(log: seq<GlEvent>, e: GlEvent)
    ensures Replay(log + [e]) == Step(Replay(log), e)
  {
  }

  /** The state before call `k + 1` of `e` is the effect of call `k` on the state before it. */
  lemma {:induction false} ReplayPrefix(log: seq<GlEvent>, e: seq<GlEvent>, k: nat)
    requires k < |e|
    ensures Replay(log + e[..k + 1]) == Step(Replay(log + e[..k]), e[k])
  {
    assert log + e[..k + 1] == (log + e[..k]) + [e[k]];
    ReplayAppend(log + e[..k], e[k]);
  }

  /** `h` has never been returned by `createTexture` in `log`. */
  ghost predicate NeverCreated(log: seq<GlEvent>, h: Handle)
  {
    forall k | 0 <= k < |log| :: log[k] != GlEvent.CreateTexture(h)
  }

  /** The rendering context: a call log and a generator of fresh handles. */
  class GlContext {
    var nextHandle: nat
    ghost var log: seq<GlEvent>

    /** Every handle created so far lies below the generator. */
    ghost predicate Valid()
      reads this
    {
      forall k | 0 <= k < |log| && log[k].CreateTexture? :: log[k].texture < nextHandle
    }

    constructor ()
      ensures Valid() && log == []
    {
      nextHandle := 0;
      log := [];
    }

    /** `createTexture()`: a handle that no earlier call returned. */
    method CreateTexture() returns (t: Handle)
      requires Valid()
      modifies this
      ensures Valid() && log == old(log) + [GlEvent.CreateTexture(t)]
      ensures NeverCreated(old(log), t)
      ensures old(nextHandle) <= t < nextHandle
    {
      t := nextHandle;
      nextHandle := nextHandle + 1;
      log := log + [GlEvent.CreateTexture(t)];
    }

    method BindTexture(target: int, texture: Option<Handle>)
      requires Valid()
      modifies this
      ensures Valid() && log == old(log) + [GlEvent.BindTexture(target, texture)]
      ensures nextHandle == old(nextHandle)
    {
      log := log + [GlEvent.BindTexture(target, texture)];
    }

    method TexParameteri(target: int, pname: int, param: int)
      requires Valid()
      modifies this
      ensures Valid() && log == old(log) + [GlEvent.TexParameteri(target, pname, param)]
      ensures nextHandle == old(nextHandle)
    {
      log := log + [GlEvent.TexParameteri(target, pname, param)];
    }

    method PixelStorei(pname: int, param: int)
      requires Valid()
      modifies this
      ensures Valid() && log == old(log) + [GlEvent.PixelStorei(pname, param)]
      ensures nextHandle == old(nextHandle)
    {
      log := log + [GlEvent.PixelStorei(pname, param)];
    }

    method TexImage2D(target: int, level: int, internalFormat: int, format: int, texelType: int, image: ImageRef)
      requires Valid()
      modifies this
      ensures Valid() && log == old(log) + [GlEvent.TexImage2D(target, level, internalFormat, format, texelType, image)]
      ensures nextHandle == old(nextHandle)
    {
      log := log + [GlEvent.TexImage2D(target, level, internalFormat, format, texelType, image)];
    }

    method GenerateMipmap(target: int)
      requires Valid()
      modifies this
      ensures Valid() && log == old(log) + [GlEvent.GenerateMipmap(target)]
      ensures nextHandle == old(nextHandle)
    {
      log := log + [GlEvent.GenerateMipmap(target)];
    }

    method DeleteTexture(texture: Handle)
      requires Valid()
      modifies this
      ensures Valid() && log == old(log) + [GlEvent.DeleteTexture(texture)]
      ensures nextHandle == old(nextHandle)
    {
      log := log + [GlEvent.DeleteTexture(texture)];
    }
  }
}
