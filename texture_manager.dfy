/**
 * The texture cache `TextureManager`: an ordered collection of resident
 * textures with a load path that reuses a record whose (fileName,
 * usePremultiply) key matches, and three ways to release textures.
 *
 * A load is asynchronous in the source: the scan runs when the load is
 * requested, the upload and append run when the image has decoded. The two
 * halves are the methods `Lookup` and `CompleteMiss`; any other calls may run
 * between them.
 */
module TextureManagers {
  import opened Optional
  import opened WebGl
  import opened TextureInfos

  /** What the load-time scan decided. */
  datatype LookupResult =
    | Hit(index: nat, info: TextureInfo)   // callback later receives this record; nothing is created
    | Pending                              // the image decodes, then `CompleteMiss` runs

  /** The calls a completed miss makes on the context, in order. */
  function MissEvents(tex: Handle, usePremultiply: bool, img: ImageRef): seq<GlEvent>
  {
    [ GlEvent.CreateTexture(tex),
      GlEvent.BindTexture(TEXTURE_2D, Some(tex)),
      GlEvent.TexParameteri(TEXTURE_2D, TEXTURE_MIN_FILTER, LINEAR_MIPMAP_LINEAR),
      GlEvent.TexParameteri(TEXTURE_2D, TEXTURE_MAG_FILTER, LINEAR) ]
    + (if usePremultiply then [GlEvent.PixelStorei(UNPACK_PREMULTIPLY_ALPHA_WEBGL, 1)] else [])
    + [ GlEvent.TexImage2D(TEXTURE_2D, 0, RGBA, RGBA, UNSIGNED_BYTE, img),
        GlEvent.GenerateMipmap(TEXTURE_2D),
        GlEvent.BindTexture(TEXTURE_2D, None) ]
  }

  /** The calls a release of every record in `s` makes: one delete per record, in index order. */
  function DeleteEvents(s: seq<TextureInfo>): (r: seq<GlEvent>)
    ensures |r| == |s|
    ensures forall i | 0 <= i < |s| :: r[i] == GlEvent.DeleteTexture(s[i].id)
  {
    if s == [] then [] else DeleteEvents(s[..|s| - 1]) + [GlEvent.DeleteTexture(s[|s| - 1].id)]
  }

  /**
   * The GL state around the calls of a miss: the state before the min
   * filter, before the mag filter, before the upload, before the mipmap
   * generation, and after the last call.
   */
  ghost predicate MissStates(log: seq<GlEvent>, e: seq<GlEvent>, tex: Handle, premultiplied: bool)
    requires |e| >= 7
  {
    var u := |e| - 3;
    && Replay(log + e[..2]).bound == Some(tex)
    && Replay(log + e[..3]).bound == Some(tex)
    && Replay(log + e[..u]) == GlState(Some(tex), premultiplied)
    && Replay(log + e[..u + 1]).bound == Some(tex)
    && Replay(log + e) == GlState(None, premultiplied)
  }

  lemma {:induction false} PlainMissStates(log: seq<GlEvent>, tex: Handle, img: ImageRef)
    ensures MissStates(log, MissEvents(tex, false, img), tex, Replay(log).unpackPremultiply)
  {
    var e := MissEvents(tex, false, img);
    var st := Replay(log);
    assert log + e[..0] == log;
    ReplayPrefix(log, e, 0);
    ReplayPrefix(log, e, 1);
    ReplayPrefix(log, e, 2);
    ReplayPrefix(log, e, 3);
    ReplayPrefix(log, e, 4);
    ReplayPrefix(log, e, 5);
    ReplayPrefix(log, e, 6);
    assert e[..7] == e;
  }

  lemma {:induction false} PremultipliedMissStates(log: seq<GlEvent>, tex: Handle, img: ImageRef)
    ensures MissStates(log, MissEvents(tex, true, img), tex, true)
  {
    var e := MissEvents(tex, true, img);
    assert log + e[..0] == log;
    ReplayPrefix(log, e, 0);
    ReplayPrefix(log, e, 1);
    ReplayPrefix(log, e, 2);
    ReplayPrefix(log, e, 3);
    ReplayPrefix(log, e, 4);
    ReplayPrefix(log, e, 5);
    ReplayPrefix(log, e, 6);
    ReplayPrefix(log, e, 7);
    assert e[..8] == e;
  }

  /**
   * A completed miss sets both filters, uploads and generates mipmaps while
   * the new texture is bound to TEXTURE_2D, and leaves nothing bound. The
   * upload premultiplies when `usePremultiply` is set or when an earlier call
   * left the context premultiplying: the flag is set but never cleared.
   */
  lemma {:induction false} MissConfiguresNewTexture(log: seq<GlEvent>, tex: Handle, usePremultiply: bool, img: ImageRef)
    ensures MissStates(log, MissEvents(tex, usePremultiply, img), tex, usePremultiply || Replay(log).unpackPremultiply)
  {
    if usePremultiply {
      PremultipliedMissStates(log, tex, img);
    } else {
      PlainMissStates(log, tex, img);
    }
  }

  /** The premultiply-unpack call is among a miss's calls exactly when `usePremultiply` is set. */
  lemma MissPremultipliesIff(tex: Handle, usePremultiply: bool, img: ImageRef)
    ensures (exists k | 0 <= k < |MissEvents(tex, usePremultiply, img)| ::
               MissEvents(tex, usePremultiply, img)[k] == GlEvent.PixelStorei(UNPACK_PREMULTIPLY_ALPHA_WEBGL, 1))
            <==> usePremultiply
  {
    var e := MissEvents(tex, usePremultiply, img);
    if usePremultiply {
      assert e[4] == GlEvent.PixelStorei(UNPACK_PREMULTIPLY_ALPHA_WEBGL, 1);
    }
  }

  /** A miss creates exactly one texture, the one it records, and deletes none. */
  lemma MissCreatesOnlyItsTexture(tex: Handle, usePremultiply: bool, img: ImageRef)
    ensures forall k | 0 <= k < |MissEvents(tex, usePremultiply, img)| ::
      && (MissEvents(tex, usePremultiply, img)[k].CreateTexture? <==> k == 0)
      && !MissEvents(tex, usePremultiply, img)[k].DeleteTexture?
    ensures MissEvents(tex, usePremultiply, img)[0] == GlEvent.CreateTexture(tex)
  {
  }

  /** A handle that no record holds is never deleted by a release of every record. */
  lemma DeleteEventsOnlyResident(s: seq<TextureInfo>, h: Handle)
    requires forall k | 0 <= k < |s| :: s[k].id != h
    ensures multiset(DeleteEvents(s))[GlEvent.DeleteTexture(h)] == 0
  {
  }

  /**
   * With handles unique, releasing all issues exactly one delete per resident
   * handle.
   */
  lemma {:induction false} DeleteEventsOncePerRecord(s: seq<TextureInfo>, i: nat)
    requires HandlesUnique(s)
    requires i < |s|
    ensures multiset(DeleteEvents(s))[GlEvent.DeleteTexture(s[i].id)] == 1
  {
    var n := |s| - 1;
    var prefix := s[..n];
    var d := GlEvent.DeleteTexture(s[i].id);
    var last := GlEvent.DeleteTexture(s[n].id);
    assert DeleteEvents(s) == DeleteEvents(prefix) + [last];
    assert multiset(DeleteEvents(s)) == multiset(DeleteEvents(prefix)) + multiset{last};
    if i == n {
      forall k | 0 <= k < |prefix| ensures prefix[k].id != s[n].id {
        assert prefix[k] == s[k];
      }
      DeleteEventsOnlyResident(prefix, s[n].id);
    } else {
      assert HandlesUnique(prefix) by {
        forall a, b | 0 <= a < b < |prefix| ensures prefix[a].id != prefix[b].id {
          assert prefix[a] == s[a] && prefix[b] == s[b];
        }
      }
      assert prefix[i] == s[i];
      DeleteEventsOncePerRecord(prefix, i);
      assert s[n].id != s[i].id;
    }
  }

  /**
   * The GL half of the image-load handler: create a texture, bind it, set
   * the filters, turn on premultiplication when asked, upload the image,
   * generate mipmaps and unbind.
   */
  method UploadTexture(gl: GlContext, usePremultiply: bool, img: ImageRef) returns (tex: Handle)
    requires gl.Valid()
    modifies gl
    ensures gl.Valid() && old(gl.nextHandle) <= tex < gl.nextHandle
    ensures NeverCreated(old(gl.log), tex)
    ensures gl.log == old(gl.log) + MissEvents(tex, usePremultiply, img)
  {
    tex := gl.CreateTexture();
    gl.BindTexture(TEXTURE_2D, Some(tex));
    gl.TexParameteri(TEXTURE_2D, TEXTURE_MIN_FILTER, LINEAR_MIPMAP_LINEAR);
    gl.TexParameteri(TEXTURE_2D, TEXTURE_MAG_FILTER, LINEAR);
    if usePremultiply {
      gl.PixelStorei(UNPACK_PREMULTIPLY_ALPHA_WEBGL, 1);
    }
    gl.TexImage2D(TEXTURE_2D, 0, RGBA, RGBA, UNSIGNED_BYTE, img);
    gl.GenerateMipmap(TEXTURE_2D);
    gl.BindTexture(TEXTURE_2D, None);
  }

  class TextureManager {
    /** `_glManager`: injected once, when the cache is built. */
    const gl: GlContext
    /** `_textures`: `None` once `Release` has run. */
    var textures: Option<seq<TextureInfo>>

    /**
     * Every resident handle was handed out by the context, and no two
     * records share one.
     */
    ghost predicate Valid()
      reads this, gl
    {
      && gl.Valid()
      && (textures.Some? ==>
            && HandlesUnique(textures.value)
            && forall i | 0 <= i < |textures.value| :: textures.value[i].id < gl.nextHandle)
    }

    constructor (gl: GlContext)
      requires gl.Valid()
      ensures Valid() && this.gl == gl && textures == Some([])
    {
      this.gl := gl;
      textures := Some([]);
    }

    /**
     * The load-time half of `createTextureFromPngFile`: scan for the first
     * record with the requested key. On a hit the record gets the new image
     * object `img` and nothing else changes; on a miss nothing changes.
     */
    method Lookup(fileName: string, usePremultiply: bool, img: ImageRef) returns (r: LookupResult)
      requires Valid() && textures.Some?
      modifies this
      ensures Valid() && textures.Some?
      ensures r.Pending? <==> FirstMatch(old(textures.value), ByKey(fileName, usePremultiply)).None?
      ensures r.Pending? ==> textures == old(textures)
      ensures r.Hit? ==>
        && FirstMatch(old(textures.value), ByKey(fileName, usePremultiply)) == Some(r.index)
        && r.info == old(textures.value)[r.index].(img := img)
        && textures == Some(WithImage(old(textures.value), r.index, img))
    {
      var i := 0;
      while i < |textures.value|
        invariant textures == old(textures)
        invariant 0 <= i <= |textures.value|
        invariant forall j | 0 <= j < i :: !Matches(textures.value[j], ByKey(fileName, usePremultiply))
      {
        if textures.value[i].fileName == fileName && textures.value[i].usePremultiply == usePremultiply {
          WithImageKeepsUnique(textures.value, i, img);
          var info := textures.value[i].(img := img);
          textures := Some(textures.value[i := info]);
          return Hit(i, info);
        }
        i := i + 1;
      }
      return Pending;
    }

    /**
     * The image-loaded half of a miss: create a texture, configure and fill
     * it, unbind, and append its record unless the collection was released.
     * Returns the record handed to the callback.
     */
    method CompleteMiss(fileName: string, usePremultiply: bool, img: ImageRef, width: nat, height: nat)
      returns (info: TextureInfo)
      requires Valid()
      modifies this, gl
      ensures Valid()
      ensures info.fileName == fileName && info.usePremultiply == usePremultiply
      ensures info.width == width && info.height == height && info.img == img
      ensures NeverCreated(old(gl.log), info.id)
      ensures gl.log == old(gl.log) + MissEvents(info.id, usePremultiply, img)
      ensures textures == match old(textures)
                          case None => None
                          case Some(s) => Some(s + [info])
      ensures old(textures).Some? && KeysUnique(old(textures.value))
              && FirstMatch(old(textures.value), ByKey(fileName, usePremultiply)).None?
              ==> KeysUnique(textures.value)
    {
      var tex := UploadTexture(gl, usePremultiply, img);
      info := TextureInfo(img, tex, width, height, usePremultiply, fileName);
      if textures.Some? {
        if KeysUnique(textures.value) && FirstMatch(textures.value, KeyOf(info)).None? {
          AppendAbsentKeepsKeysUnique(textures.value, info);
        }
        textures := Some(textures.value + [info]);
      }
    }

    /** `releaseTextures`: delete every resident texture, in index order, and empty the collection. */
    method ReleaseTextures()
      requires Valid() && textures.Some?
      modifies this, gl
      ensures Valid() && textures == Some([])
      ensures gl.log == old(gl.log) + DeleteEvents(old(textures.value))
    {
      var i := 0;
      while i < |textures.value|
        invariant textures == old(textures)
        invariant 0 <= i <= |textures.value|
        invariant gl.Valid() && gl.nextHandle == old(gl.nextHandle)
        invariant gl.log == old(gl.log) + DeleteEvents(textures.value[..i])
      {
        gl.DeleteTexture(textures.value[i].id);
        assert textures.value[..i + 1][..i] == textures.value[..i];
        i := i + 1;
      }
      assert textures.value[..i] == textures.value;
      textures := Some([]);
    }

    /**
     * `releaseTextureByTexture`: delete and remove the first record holding
     * `texture`; do nothing when no record holds it.
     */
    method ReleaseTextureByTexture(texture: Handle)
      requires Valid() && textures.Some?
      modifies this, gl
      ensures Valid() && textures == Some(RemoveFirst(old(textures.value), ByHandle(texture)))
      ensures gl.log == old(gl.log) +
        if FirstMatch(old(textures.value), ByHandle(texture)).Some? then [GlEvent.DeleteTexture(texture)] else []
    {
      var i := 0;
      while i < |textures.value|
        invariant textures == old(textures)
        invariant 0 <= i <= |textures.value|
        invariant gl.Valid() && gl.log == old(gl.log) && gl.nextHandle == old(gl.nextHandle)
        invariant forall j | 0 <= j < i :: !Matches(textures.value[j], ByHandle(texture))
      {
        if textures.value[i].id != texture {
          i := i + 1;
          continue;
        }
        assert FirstMatch(textures.value, ByHandle(texture)) == Some(i);
        gl.DeleteTexture(textures.value[i].id);
        RemoveAtKeepsUnique(textures.value, i);
        textures := Some(RemoveAt(textures.value, i));
        break;
      }
    }

    /**
     * `releaseTextureByFilePath`: delete and remove the first record loaded
     * from `fileName`, whatever its premultiply flag; do nothing when no
     * record was.
     */
    method ReleaseTextureByFilePath(fileName: string)
      requires Valid() && textures.Some?
      modifies this, gl
      ensures Valid() && textures == Some(RemoveFirst(old(textures.value), ByFileName(fileName)))
      ensures match FirstMatch(old(textures.value), ByFileName(fileName))
              case None => gl.log == old(gl.log)
              case Some(i) => gl.log == old(gl.log) + [GlEvent.DeleteTexture(old(textures.value)[i].id)]
    {
      var i := 0;
      while i < |textures.value|
        invariant textures == old(textures)
        invariant 0 <= i <= |textures.value|
        invariant gl.Valid() && gl.log == old(gl.log) && gl.nextHandle == old(gl.nextHandle)
        invariant forall j | 0 <= j < i :: !Matches(textures.value[j], ByFileName(fileName))
      {
        if textures.value[i].fileName == fileName {
          assert FirstMatch(textures.value, ByFileName(fileName)) == Some(i);
          gl.DeleteTexture(textures.value[i].id);
          RemoveAtKeepsUnique(textures.value, i);
          textures := Some(RemoveAt(textures.value, i));
          break;
        }
        i := i + 1;
      }
    }

    /** `release`: delete every resident texture, then drop the collection itself. */
    method Release()
      requires Valid() && textures.Some?
      modifies this, gl
      ensures Valid() && textures == None
      ensures gl.log == old(gl.log) + DeleteEvents(old(textures.value))
    {
      var i := 0;
      while i < |textures.value|
        invariant textures == old(textures)
        invariant 0 <= i <= |textures.value|
        invariant gl.Valid() && gl.nextHandle == old(gl.nextHandle)
        invariant gl.log == old(gl.log) + DeleteEvents(textures.value[..i])
      {
        gl.DeleteTexture(textures.value[i].id);
        assert textures.value[..i + 1][..i] == textures.value[..i];
        i := i + 1;
      }
      assert textures.value[..i] == textures.value;
      textures := None;
    }
  }

  /** A cache call that may run while a load's image is decoding. */
  datatype Op =
    | LookupOp(fileName: string, usePremultiply: bool, img: ImageRef)   // another load's scan
    | ReleaseByTexture(texture: Handle)
    | ReleaseByFilePath(fileName: string)
    | ReleaseAll

  /**
   * A load that missed and completes before any other miss completes keeps
   * keys unique, whatever lookups and releases (`interleaved`, any number,
   * in any order) run while its image decodes. The lookups in `interleaved`
   * may themselves miss; only their completions are excluded.
   */
  method PendingMissKeepsKeysUnique(
    m: TextureManager, fileName: string, usePremultiply: bool, img: ImageRef, width: nat, height: nat,
    interleaved: seq<Op>)
    requires m.Valid() && m.textures.Some? && KeysUnique(m.textures.value)
    modifies m, m.gl
    ensures m.Valid() && m.textures.Some? && KeysUnique(m.textures.value)
  {
    var key := ByKey(fileName, usePremultiply);
    var r := m.Lookup(fileName, usePremultiply, img);
    if r.Pending? {
      var k := 0;
      while k < |interleaved|
        invariant 0 <= k <= |interleaved|
        invariant m.Valid() && m.textures.Some? && KeysUnique(m.textures.value)
        invariant FirstMatch(m.textures.value, key).None?
      {
        var s := m.textures.value;
        match interleaved[k] {
          case LookupOp(f, p, i) =>
            var hit := m.Lookup(f, p, i);
            if hit.Hit? {
              WithImageKeepsScans(s, hit.index, i, key);
              WithImageKeepsUnique(s, hit.index, i);
            }
          case ReleaseByTexture(t) =>
            m.ReleaseTextureByTexture(t);
            RemoveFirstKeepsAbsent(s, ByHandle(t), key);
            RemoveFirstKeepsUnique(s, ByHandle(t));
          case ReleaseByFilePath(f) =>
            m.ReleaseTextureByFilePath(f);
            RemoveFirstKeepsAbsent(s, ByFileName(f), key);
            RemoveFirstKeepsUnique(s, ByFileName(f));
          case ReleaseAll =>
            m.ReleaseTextures();
        }
        k := k + 1;
      }
      // the image has loaded
      var info := m.CompleteMiss(fileName, usePremultiply, img, width, height);
    }
  }

  /**
   * Two loads of one absent key, both requested before either image decodes,
   * create two textures and leave two records with that key.
   */
  method OverlappingLoadsDuplicate(
    m: TextureManager, fileName: string, usePremultiply: bool, img1: ImageRef, img2: ImageRef, width: nat, height: nat)
    returns (first: TextureInfo, second: TextureInfo)
    requires m.Valid() && m.textures.Some?
    requires FirstMatch(m.textures.value, ByKey(fileName, usePremultiply)).None?
    modifies m, m.gl
    ensures m.Valid() && m.textures == Some(old(m.textures.value) + [first, second])
    ensures KeyOf(first) == KeyOf(second) && first.id != second.id
    ensures !KeysUnique(m.textures.value)
  {
    var r1 := m.Lookup(fileName, usePremultiply, img1);
    var r2 := m.Lookup(fileName, usePremultiply, img2);
    ghost var log0 := m.gl.log;
    first := m.CompleteMiss(fileName, usePremultiply, img1, width, height);
    assert m.gl.log[|log0|] == GlEvent.CreateTexture(first.id);
    second := m.CompleteMiss(fileName, usePremultiply, img2, width, height);
    assert old(m.textures.value) + [first] + [second] == old(m.textures.value) + [first, second];
    OverlappingMissesDuplicateKey(old(m.textures.value), first, second);
  }
}
