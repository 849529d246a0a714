/** The reference-counted texture cache of ponyban/TextureResource.cpp: a
    map from file name to loaded texture, shared by every user that loads the
    same file, and a list of all users. A texture leaves the map when the last
    user that holds it is destroyed. ponyban/AnimatedSprite.cpp keeps the same
    two statics for its sprites with the same code; both are this class. */
module Textures {
  import opened Lists

  /** A texture in memory. Its size is what the image file held. */
  class Texture {
    const width: nat
    const height: nat

    constructor(width: nat, height: nat)
      ensures this.width == width && this.height == height
    {
      this.width := width;
      this.height := height;
    }
  }

  /** One user of the cache: the texture it currently holds, if any. */
  class TextureResource {
    var texture: Texture?

    constructor()
      ensures texture == null
    {
      texture := null;
    }
  }

  /** No texture is filed under two names. */
  predicate Injective(m: map<string, Texture>) {
    forall a, b :: a in m && b in m && m[a] == m[b] ==> a == b
  }

  /** The map without every entry that holds `t`. */
  function EraseValue(m: map<string, Texture>, t: Texture?): map<string, Texture> {
    map k | k in m && m[k] != t :: m[k]
  }

  /** In a map that files no texture twice, dropping the entries that hold a
      texture drops at most one entry, keeps every other one as it was, and
      leaves no entry holding it. */
  lemma EraseValueAtMostOne(m: map<string, Texture>, t: Texture?)
    requires Injective(m)
    ensures Injective(EraseValue(m, t))
    ensures forall k :: k in EraseValue(m, t) ==> k in m && EraseValue(m, t)[k] == m[k] && m[k] != t
    ensures forall a, b :: a in m && b in m && a !in EraseValue(m, t) && b !in EraseValue(m, t) ==> a == b
    ensures forall k :: k in m && m[k] != t ==> k in EraseValue(m, t)
  {
  }

  /** The entry found by the scan is the only one holding its texture, so
      erasing it is erasing that texture. */
  lemma EraseFound(m: map<string, Texture>, key: string)
    requires Injective(m) && key in m
    ensures m - {key} == EraseValue(m, m[key])
  {
  }

  /** A texture no entry holds erases nothing. */
  lemma EraseAbsent(m: map<string, Texture>, t: Texture?)
    requires forall k :: k in m ==> m[k] != t
    ensures EraseValue(m, t) == m
  {
  }

  /** Adding a texture that no entry holds under a new name keeps the map
      free of repeats. */
  lemma InsertNew(m: map<string, Texture>, name: string, t: Texture)
    requires Injective(m) && name !in m
    requires forall k :: k in m ==> m[k] != t
    ensures Injective(m[name := t])
  {
  }

  /** Some user in `users` holds `t`. */
  predicate SharedBy(users: seq<TextureResource>, t: Texture?)
    reads set u | u in users
  {
    exists u :: u in users && u.texture == t
  }

  class TextureCache {
    var textureMap: map<string, Texture>
    var resourceList: seq<TextureResource>

    predicate Valid()
      reads this
    {
      NoDuplicates(resourceList) && Injective(textureMap)
    }

    constructor()
      ensures textureMap == map[] && resourceList == [] && Valid()
    {
      textureMap := map[];
      resourceList := [];
    }

    /** The TextureResource constructor (ponyban/TextureResource.cpp:29-33):
        a new user with no texture, appended to the list. */
    method CreateResource() returns (r: TextureResource)
      requires Valid()
      modifies this
      ensures Valid()
      ensures fresh(r) && r.texture == null
      ensures resourceList == old(resourceList) + [r]
      ensures textureMap == old(textureMap)
    {
      r := new TextureResource();
      AppendDistinct(resourceList, r);
      resourceList := resourceList + [r];
    }

    /** loadTextureFromFile (ponyban/TextureResource.cpp:70-89). Whether
        the image file loads, and the size it has, come from outside. */
    method LoadTextureFromFile(r: TextureResource, fileName: string, loads: bool, width: nat, height: nat)
      returns (ok: bool)
      requires Valid()
      modifies this, r
      ensures Valid()
      ensures resourceList == old(resourceList)
      ensures fileName in old(textureMap) ==>
        ok && r.texture == old(textureMap)[fileName] && textureMap == old(textureMap)
      ensures fileName !in old(textureMap) && !loads ==>
        !ok && r.texture == null && textureMap == old(textureMap)
      ensures fileName !in old(textureMap) && loads ==>
        && ok && r.texture != null && fresh(r.texture)
        && r.texture.width == width && r.texture.height == height
        && textureMap == old(textureMap)[fileName := r.texture]
    {
      if fileName !in textureMap {
        if !loads {
          r.texture := null;
          return false;
        }
        var t := new Texture(width, height);
        InsertNew(textureMap, fileName, t);
        textureMap := textureMap[fileName := t];
        r.texture := t;
      } else {
        r.texture := textureMap[fileName];
      }
      return true;
    }

    /** The TextureResource destructor (ponyban/TextureResource.cpp:36-67):
        take `r` out of the list while checking whether any other user holds
        its texture, then, if none does, erase the map entry that holds it. */
    method Destroy(r: TextureResource)
      requires Valid() && r in resourceList
      modifies this
      ensures Valid()
      ensures resourceList == RemoveAt(old(resourceList), IndexOf(old(resourceList), r))
      ensures r !in resourceList
      ensures SharedBy(resourceList, r.texture) ==> textureMap == old(textureMap)
      ensures !SharedBy(resourceList, r.texture) ==> textureMap == EraseValue(old(textureMap), r.texture)
    {
      var doErase := Unlist(r);
      if doErase {
        EraseTexture(r.texture);
      }
    }

    /** The first loop of the destructor (ponyban/TextureResource.cpp:41-51):
        erase `r` from the list and check every other user's texture. */
    method Unlist(r: TextureResource) returns (doErase: bool)
      requires Valid() && r in resourceList
      modifies this
      ensures Valid() && textureMap == old(textureMap)
      ensures resourceList == RemoveAt(old(resourceList), IndexOf(old(resourceList), r))
      ensures r !in resourceList
      ensures doErase <==> !SharedBy(resourceList, r.texture)
    {
      ghost var k := IndexOf(resourceList, r);
      ghost var before := resourceList;
      RemoveAtDistinct(resourceList, k);
      RemoveAtIndex(resourceList, k);
      doErase := true;
      var i := 0;
      while i < |resourceList|
        invariant Valid() && textureMap == old(textureMap)
        invariant (resourceList == before && i <= k) || (resourceList == RemoveAt(before, k) && k < i)
        invariant 0 <= i <= |resourceList|
        invariant doErase <==> forall j :: 0 <= j < i ==> resourceList[j].texture != r.texture
        decreases |resourceList| - i
      {
        if resourceList[i] == r {
          assert i == k;
          resourceList := resourceList[..i] + resourceList[i + 1..];
        }
        if i == |resourceList| {
          break;
        }
        if resourceList[i].texture == r.texture {
          doErase := false;
        }
        i := i + 1;
      }
      assert resourceList == RemoveAt(before, k);
    }

    /** The second loop of the destructor (ponyban/TextureResource.cpp:54-66):
        erase the first entry that holds `t`. */
    method EraseTexture(t: Texture?)
      requires Valid()
      modifies this
      ensures Valid() && resourceList == old(resourceList)
      ensures textureMap == EraseValue(old(textureMap), t)
    {
      var keys := textureMap.Keys;
      while keys != {}
        invariant textureMap == old(textureMap)
        invariant keys <= textureMap.Keys
        invariant forall key :: key in textureMap && key !in keys ==> textureMap[key] != t
        decreases |keys|
      {
        var key :| key in keys;
        if textureMap[key] == t {
          EraseFound(textureMap, key);
          EraseValueAtMostOne(textureMap, t);
          textureMap := textureMap - {key};
          return;
        }
        keys := keys - {key};
      }
      EraseAbsent(textureMap, t);
    }
  }
}
