/**
 * The texture record and the collection-level operations the cache performs
 * on its ordered `csmVector<TextureInfo>`: the first-match scan, removal of
 * one index with the remainder shifted down, and the uniqueness properties
 * the cache relies on.
 */
module TextureInfos {
  import opened Optional
  import opened WebGl

  /** One resident texture: the `TextureInfo` class. */
  datatype TextureInfo = TextureInfo(
    img: ImageRef,
    id: Handle,
    width: nat,
    height: nat,
    usePremultiply: bool,
    fileName: string)

  /** What a scan of the collection looks for. */
  datatype Query =
    | ByKey(fileName: string, usePremultiply: bool)   // the load-time lookup
    | ByHandle(texture: Handle)                       // releaseTextureByTexture
    | ByFileName(path: string)                        // releaseTextureByFilePath

  predicate Matches(t: TextureInfo, q: Query)
  {
    match q
    case ByKey(f, p) => t.fileName == f && t.usePremultiply == p
    case ByHandle(h) => t.id == h
    case ByFileName(f) => t.fileName == f
  }

  /** The cache key of a record, as a query. */
  function KeyOf(t: TextureInfo): Query
  {
    ByKey(t.fileName, t.usePremultiply)
  }

  /** The index of the first record in collection order that `q` matches. */
  function FirstMatch(s: seq<TextureInfo>, q: Query): (r: Option<nat>)
    ensures r.Some? ==> r.value < |s| && Matches(s[r.value], q)
    ensures r.Some? ==> forall j | 0 <= j < r.value :: !Matches(s[j], q)
    ensures r.None? <==> forall j | 0 <= j < |s| :: !Matches(s[j], q)
  {
    if s == [] then None
    else if Matches(s[0], q) then Some(0)
    else match FirstMatch(s[1..], q)
      case None => None
      case Some(i) => Some(i + 1)
  }

  /** No two records share a (fileName, usePremultiply) key. */
  predicate KeysUnique(s: seq<TextureInfo>)
  {
    forall i, j | 0 <= i < j < |s| :: !Matches(s[j], KeyOf(s[i]))
  }

  /** No two records share a texture handle. */
  predicate HandlesUnique(s: seq<TextureInfo>)
  {
    forall i, j | 0 <= i < j < |s| :: s[i].id != s[j].id
  }

  /** `csmVector.remove(i)`: drop index `i` and shift the rest down by one. */
  function RemoveAt(s: seq<TextureInfo>, i: nat): (r: seq<TextureInfo>)
    requires i < |s|
    ensures |r| == |s| - 1
    ensures forall j | 0 <= j < i :: r[j] == s[j]
    ensures forall j | i <= j < |r| :: r[j] == s[j + 1]
  {
    s[..i] + s[i + 1..]
  }

  /** The collection after removing the first record `q` matches, if any. */
  function RemoveFirst(s: seq<TextureInfo>, q: Query): seq<TextureInfo>
  {
    match FirstMatch(s, q)
    case None => s
    case Some(i) => RemoveAt(s, i)
  }

  /** The record a load hit refreshes: only its image object changes. */
  function WithImage(s: seq<TextureInfo>, k: nat, img: ImageRef): seq<TextureInfo>
    requires k < |s|
  {
    s[k := s[k].(img := img)]
  }

  /** Removing one index loses exactly that record: the rest is kept, each as often as before. */
  lemma {:induction false} RemoveAtMultiset(s: seq<TextureInfo>, i: nat)
    requires i < |s|
    ensures multiset(RemoveAt(s, i)) + multiset{s[i]} == multiset(s)
  {
    assert s == s[..i] + [s[i]] + s[i + 1..];
    calc {
      multiset(s);
      multiset(s[..i]) + multiset([s[i]]) + multiset(s[i + 1..]);
      multiset(s[..i] + s[i + 1..]) + multiset{s[i]};
    }
  }

  /** Removing one index keeps both uniqueness properties. */
  lemma RemoveAtKeepsUnique(s: seq<TextureInfo>, i: nat)
    requires i < |s|
    ensures KeysUnique(s) ==> KeysUnique(RemoveAt(s, i))
    ensures HandlesUnique(s) ==> HandlesUnique(RemoveAt(s, i))
  {
  }

  /**
   * A release by handle or by path removes at most one record: nothing when
   * no record matches, otherwise exactly the first match, with every other
   * record kept in its relative order.
   */
  lemma RemoveFirstRemovesFirstOnly(s: seq<TextureInfo>, q: Query)
    ensures FirstMatch(s, q).None? ==> RemoveFirst(s, q) == s
    ensures FirstMatch(s, q).Some? ==>
      var i := FirstMatch(s, q).value;
      && |RemoveFirst(s, q)| == |s| - 1
      && Matches(s[i], q)
      && multiset(RemoveFirst(s, q)) + multiset{s[i]} == multiset(s)
      && RemoveFirst(s, q)[..i] == s[..i]
      && RemoveFirst(s, q)[i..] == s[i + 1..]
  {
    if FirstMatch(s, q).Some? {
      RemoveAtMultiset(s, FirstMatch(s, q).value);
    }
  }

  /** A release never brings a record back: what no scan found before, none finds after. */
  lemma RemoveFirstKeepsAbsent(s: seq<TextureInfo>, q: Query, q': Query)
    requires FirstMatch(s, q').None?
    ensures FirstMatch(RemoveFirst(s, q), q').None?
  {
  }

  /** A release keeps the uniqueness of keys and of handles. */
  lemma {:induction false} RemoveFirstKeepsUnique(s: seq<TextureInfo>, q: Query)
    ensures KeysUnique(s) ==> KeysUnique(RemoveFirst(s, q))
    ensures HandlesUnique(s) ==> HandlesUnique(RemoveFirst(s, q))
  {
    if FirstMatch(s, q).Some? {
      RemoveAtKeepsUnique(s, FirstMatch(s, q).value);
    }
  }

  /**
   * With handles unique, releasing by handle leaves no record holding that
   * handle, so the handle that was deleted is no longer reachable.
   */
  lemma RemoveByHandleLeavesNone(s: seq<TextureInfo>, h: Handle)
    requires HandlesUnique(s)
    ensures FirstMatch(RemoveFirst(s, ByHandle(h)), ByHandle(h)).None?
  {
  }

  /** Refreshing a hit record's image changes the result of no scan. */
  lemma {:induction false} WithImageKeepsScans(s: seq<TextureInfo>, k: nat, img: ImageRef, q: Query)
    requires k < |s|
    ensures FirstMatch(WithImage(s, k, img), q) == FirstMatch(s, q)
  {
    var s' := WithImage(s, k, img);
    assert forall j | 0 <= j < |s| :: Matches(s'[j], q) == Matches(s[j], q);
  }

  /** Refreshing a hit record's image keeps both uniqueness properties. */
  lemma WithImageKeepsUnique(s: seq<TextureInfo>, k: nat, img: ImageRef)
    requires k < |s|
    ensures KeysUnique(s) ==> KeysUnique(WithImage(s, k, img))
    ensures HandlesUnique(s) ==> HandlesUnique(WithImage(s, k, img))
  {
  }

  /** Appending a record whose key no scan found keeps keys unique. */
  lemma AppendAbsentKeepsKeysUnique(s: seq<TextureInfo>, t: TextureInfo)
    requires KeysUnique(s)
    requires FirstMatch(s, KeyOf(t)).None?
    ensures KeysUnique(s + [t])
  {
  }

  /**
   * Two loads of one key that both missed, completed one after the other,
   * leave two records with that key: the scan-then-append protocol does not
   * deduplicate loads that overlap.
   */
  lemma OverlappingMissesDuplicateKey(s: seq<TextureInfo>, t1: TextureInfo, t2: TextureInfo)
    requires KeyOf(t1) == KeyOf(t2)
    ensures !KeysUnique(s + [t1] + [t2])
  {
    var s' := s + [t1] + [t2];
    assert s'[|s|] == t1 && s'[|s| + 1] == t2;
  }
}
