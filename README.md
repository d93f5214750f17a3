# Texture cache of EasyLive2D's core package

This project models `TextureManager`, the WebGL texture cache of the
EasyLive2D core package. The cache keeps an ordered collection of
`TextureInfo` records. Each record holds a file name, a premultiply flag, a
WebGL texture handle, the image size and the image object. The cache offers
one operation that loads a texture or reuses one, and three ways to release
textures: all of them, one by handle, or one by file path. `release` tears
the whole cache down.

A load is asynchronous. The collection is scanned when the load is
requested. The texture is created and the record appended only when the
image has finished loading. The model splits a load into these two halves:

- `Lookup` scans for the first record with the requested
  (`fileName`, `usePremultiply`) key. On a hit it gives that record a new
  image object and returns it. On a miss it returns `Pending`.
- `CompleteMiss` is the body of the image-load handler. It creates a texture,
  binds it, sets the filters, optionally turns on alpha premultiplication,
  uploads the image, generates mipmaps, unbinds, and appends the new record.

Any other call may run between the two halves. The model therefore proves
key uniqueness only for a miss that completes before any other miss does.
`PendingMissKeepsKeysUnique` proves it for any sequence of lookups and
releases of every kind run while the image loads. It also shows that two overlapping loads of
the same key leave two records with two different handles
(`OverlappingLoadsDuplicate`). Nothing in
`createTextureFromPngFile` makes pending loads of one key share a handle:
the scan runs before the image loads and the append runs after, with no
check in between.

The WebGL context is foreign code. It is modelled as the class `GlContext`:

- a ghost log of the calls made on it;
- a counter that hands out fresh texture handles;
- a replay function `Replay` that computes the global state those calls
  leave behind: the texture bound to `TEXTURE_2D` (which `deleteTexture`
  of the bound texture clears), and the `UNPACK_PREMULTIPLY_ALPHA_WEBGL`
  flag.

The code sets the premultiply flag to 1 and never resets it. The flag
therefore stays on for every later upload, including uploads for records
whose flag is false. `MissConfiguresNewTexture` states this as it is.

Files:

- `optional.dfy`: `Option`, which stands for nullable references.
- `webgl.dfy`: the GL enumerants, call events, state replay and `GlContext`.
- `texture_info.dfy`: the record, the first-match scan, `csmVector.remove`,
  and the uniqueness lemmas.
- `texture_manager.dfy`: the `TextureManager` class, the call sequences it
  issues, and two client methods for interleavings.

## Model

| member | source | states |
|---|---|---|
| `WebGl.GlContext.CreateTexture` | packages/core/src/managers/texture-manager.ts:75 | `createTexture` logs one call and returns a handle that no earlier call returned |
| `WebGl.GlContext.BindTexture` | packages/core/src/managers/texture-manager.ts:78-80 | `bindTexture` appends exactly its call to the log and creates no handle |
| `WebGl.GlContext.TexParameteri` | packages/core/src/managers/texture-manager.ts:83-96 | `texParameteri` appends exactly its call to the log and creates no handle |
| `WebGl.GlContext.PixelStorei` | packages/core/src/managers/texture-manager.ts:100-105 | `pixelStorei` appends exactly its call to the log and creates no handle |
| `WebGl.GlContext.TexImage2D` | packages/core/src/managers/texture-manager.ts:109-118 | `texImage2D` appends exactly its call to the log and creates no handle |
| `WebGl.GlContext.GenerateMipmap` | packages/core/src/managers/texture-manager.ts:121-123 | `generateMipmap` appends exactly its call to the log and creates no handle |
| `WebGl.GlContext.DeleteTexture` | packages/core/src/managers/texture-manager.ts:157 | `deleteTexture` appends exactly its call to the log and creates no handle |
| `TextureInfos.Matches` | packages/core/src/managers/texture-manager.ts:50-53 | a record matches a lookup when both file name and premultiply flag are equal, a release by handle when its id is equal (line 172), and a release by path when its file name alone is equal (line 191) |
| `TextureInfos.FirstMatch` | packages/core/src/managers/texture-manager.ts:45-53 | the scan's result is the least index whose record matches, and it is `None` exactly when no record matches |
| `TextureInfos.RemoveAt` | packages/core/src/managers/texture-manager.ts:178 | `remove(i)` gives a collection one shorter, equal to the old one below `i` and shifted down by one from `i` |
| `TextureInfos.RemoveFirst` | packages/core/src/managers/texture-manager.ts:171-180 | the collection after a single-record release: unchanged when the scan finds nothing, otherwise `remove` at the first match (also lines 190-197) |
| `TextureInfos.WithImage` | packages/core/src/managers/texture-manager.ts:57 | a hit replaces the image object of the found record and nothing else |
| `TextureInfos.RemoveAtMultiset` | packages/core/src/managers/texture-manager.ts:194 | `remove(i)` loses exactly the record at `i`; every other record stays, as often as before |
| `TextureInfos.RemoveAtKeepsUnique` | packages/core/src/managers/texture-manager.ts:178 | removing one index keeps keys unique and handles unique |
| `TextureInfos.RemoveFirstRemovesFirstOnly` | packages/core/src/managers/texture-manager.ts:170-198 | a single-record release changes nothing when no record matches; otherwise it removes exactly the first match and keeps the records before and after it in order |
| `TextureInfos.RemoveFirstKeepsAbsent` | packages/core/src/managers/texture-manager.ts:189-198 | no key that was absent before a single-record release is present after it |
| `TextureInfos.RemoveFirstKeepsUnique` | packages/core/src/managers/texture-manager.ts:170-198 | a single-record release keeps keys unique and handles unique |
| `TextureInfos.RemoveByHandleLeavesNone` | packages/core/src/managers/texture-manager.ts:170-181 | when handles are unique, no record holds the handle after a release by that handle |
| `TextureInfos.WithImageKeepsScans` | packages/core/src/managers/texture-manager.ts:57-64 | replacing a hit record's image object changes the result of no scan |
| `TextureInfos.WithImageKeepsUnique` | packages/core/src/managers/texture-manager.ts:57-64 | replacing a hit record's image object keeps keys unique and handles unique |
| `TextureInfos.AppendAbsentKeepsKeysUnique` | packages/core/src/managers/texture-manager.ts:138-140 | appending a record whose key the scan did not find keeps keys unique |
| `TextureInfos.OverlappingMissesDuplicateKey` | packages/core/src/managers/texture-manager.ts:45-143 | appending two records with one key never leaves keys unique |
| `TextureManagers.MissConfiguresNewTexture` | packages/core/src/managers/texture-manager.ts:75-128 | in a miss both filter calls, the upload and the mipmap call find the new texture bound; afterwards nothing is bound; the upload premultiplies exactly when the flag is set or an earlier call left premultiplication on |
| `TextureManagers.PlainMissStates` | packages/core/src/managers/texture-manager.ts:75-128 | without premultiplication the filters, upload and mipmap calls all find the new texture bound, the unpack flag stays as it was, and nothing is bound at the end |
| `TextureManagers.PremultipliedMissStates` | packages/core/src/managers/texture-manager.ts:75-128 | with premultiplication the same holds, and the upload and everything after it run with the unpack flag on |
| `TextureManagers.MissPremultipliesIff` | packages/core/src/managers/texture-manager.ts:99-106 | a miss issues `pixelStorei(UNPACK_PREMULTIPLY_ALPHA_WEBGL, 1)` if and only if `usePremultiply` is set |
| `TextureManagers.MissCreatesOnlyItsTexture` | packages/core/src/managers/texture-manager.ts:75-128 | a miss makes exactly one `createTexture` call, as its first call, for the handle it records, and deletes nothing |
| `TextureManagers.DeleteEvents` | packages/core/src/managers/texture-manager.ts:155-159 | releasing every record issues one delete per record, in index order, each for that record's handle |
| `TextureManagers.DeleteEventsOnlyResident` | packages/core/src/managers/texture-manager.ts:155-159 | releasing every record never deletes a handle that no record holds |
| `TextureManagers.DeleteEventsOncePerRecord` | packages/core/src/managers/texture-manager.ts:155-162 | when handles are unique, each resident handle is deleted exactly once |
| `TextureManagers.MissEvents` | packages/core/src/managers/texture-manager.ts:75-128 | the calls of a completed miss, in order: create, bind, min filter, mag filter, premultiply only when asked, upload, mipmap, unbind |
| `TextureManagers.UploadTexture` | packages/core/src/managers/texture-manager.ts:75-128 | the handler's GL calls are exactly the fixed miss sequence, for one handle that no earlier call returned |
| `TextureManagers.TextureManager.constructor` | packages/core/src/managers/texture-manager.ts:13-16 | a new cache has an empty collection and uses the given context |
| `TextureManagers.TextureManager.Lookup` | packages/core/src/managers/texture-manager.ts:45-67 | on a hit it returns the first record with the key and changes only that record's image object; it returns `Pending` exactly when no record has the key, and then changes nothing; it makes no GL call |
| `TextureManagers.TextureManager.CompleteMiss` | packages/core/src/managers/texture-manager.ts:73-143 | issues the fixed call sequence for one fresh handle; returns the record for the callback, with the requested name and flag, the loaded size and the new handle; appends that record unless the collection was released; keeps keys unique when the key was absent |
| `TextureManagers.TextureManager.ReleaseTextures` | packages/core/src/managers/texture-manager.ts:155-162 | issues one delete per resident record, in index order, and leaves the collection empty |
| `TextureManagers.TextureManager.ReleaseTextureByTexture` | packages/core/src/managers/texture-manager.ts:170-181 | removes only the first record holding the handle and deletes that handle once; with no match it makes no call and changes nothing |
| `TextureManagers.TextureManager.ReleaseTextureByFilePath` | packages/core/src/managers/texture-manager.ts:189-198 | removes only the first record with that file name, whatever its flag, and deletes its handle once; with no match it makes no call and changes nothing |
| `TextureManagers.TextureManager.Release` | packages/core/src/managers/texture-manager.ts:21-30 | deletes every resident handle in order, then drops the collection |
| `TextureManagers.PendingMissKeepsKeysUnique` | packages/core/src/managers/texture-manager.ts:45-198 | a miss completes with keys still unique if no other miss completes between its lookup and its completion, whatever sequence of lookups, single-record releases and release-all calls runs in between |
| `TextureManagers.OverlappingLoadsDuplicate` | packages/core/src/managers/texture-manager.ts:45-143 | two loads of one absent key that both miss before either completes append two records with the same key and different handles |

## Left out

- Image loading is left out: the `Image` objects, their `src` assignments and their `'load'` listeners (lines 57-64, 70-72, 145-147) are browser I/O. The model replaces them with the `Lookup`/`CompleteMiss` split. The loaded width and height are parameters of `CompleteMiss`, and images are opaque numbers.
- Callbacks are not modelled as calls. `Lookup` returns the hit record and `CompleteMiss` returns the new record; each stands for the argument the callback receives.
- TextureManagers.TextureManager.Lookup: on a hit the source passes `ite.ptr()` to the callback when the new image has loaded. That reads whatever record sits at the iterator's index at that moment. The model returns the record found at lookup time. It does not capture a callback that sees another record, or none, because a release ran while the image loaded.
- `TextureInfo` is a class in the source (lines 215-222), so a callback's record and the record in the collection are one object. A later hit's `img = new Image()` (line 57) is therefore seen by everyone who holds that record. The model's records are values: the record `Lookup` or `CompleteMiss` returns does not change when a later hit updates the collection.
- The `set(i, null)` before `clear()` and `remove(i)` (lines 158, 177, 193) is not modelled. The slot is cleared or removed at once, so nothing can observe the null.
- The `textureInfo != null` test (line 131) is always true, because `new` never yields null.
- `setGlManager` (lines 204-206) becomes the constructor's context parameter. In the source, an operation that reaches `getGl()` before a context is set fails: a completed miss, `release` or `releaseTextures` on a non-empty collection, and a single-record release that finds a match. The scan and the hit path never reach it. The model always has a context, so it cannot express these failures.
- Once `release` has set the collection to null, calling `createTextureFromPngFile`, `releaseTextures`, a single-record release or `release` itself (line 23) dereferences null and throws. The model states this as a precondition (`textures.Some?`). A miss whose image loads after `release` is modelled: it creates the texture and returns the record, but appends nothing (line 138).
- WebGL failures are not modelled: a lost context, `createTexture` returning null, and GL errors. Handles come from a counter, so each new handle differs from every earlier one.
- `csmVector` and its iterator are modelled as a Dafny `seq`. `remove(i)` deletes index `i` and shifts the rest down.
