/** The frame logic of an animated sprite (ponyban/AnimatedSprite.cpp and
    ponyban-cpp/ponyban/AnimatedSprite.cpp, which share it): a sprite sheet
    cut into splitX columns of cells, a frame number picking one cell, and
    playback that moves to the next frame, wrapping to 0 after the last one,
    each time a frame delay has passed. Time is in whole microseconds, as
    sf::Time holds it. */
module Animation {
  import opened Lists
  import opened Textures

  /** sf::IntRect: the part of the sheet the sprite shows. */
  datatype IntRect = IntRect(left: int, top: int, width: int, height: int)

  /** The cell of frame `frame`: column frame mod splitX, row frame div splitX,
      each scaled by the cell size. */
  function FrameRect(frame: nat, splitX: nat, sizeX: nat, sizeY: nat): IntRect
    requires splitX >= 1
  {
    IntRect((frame % splitX) * sizeX, (frame / splitX) * sizeY, sizeX, sizeY)
  }

  /** Multiplying by the same number keeps the order. */
  lemma {:induction false} MulMono(x: int, y: int, c: int)
    requires x <= y && c >= 0
    ensures x * c <= y * c
    decreases y - x
  {
    if x < y {
      MulMono(x + 1, y, c);
      assert (x + 1) * c == x * c + c;
    }
  }

  /** MulMono for any two numbers, as an implication. */
  lemma MulOrder(x: int, y: int, c: int)
    ensures x <= y && c >= 0 ==> x * c <= y * c
  {
    if x <= y && c >= 0 {
      MulMono(x, y, c);
    }
  }

  /** A quotient and remainder that rebuild `x` are the ones `/` and `%`
      give. */
  lemma DivModUnique(x: int, m: int, q: int, r: int)
    requires m >= 1 && 0 <= r < m && x == q * m + r
    ensures q == x / m && r == x % m
  {
    var q', r' := x / m, x % m;
    assert x == q' * m + r';
    assert (q + 1) * m == q * m + m;
    assert (q' + 1) * m == q' * m + m;
    MulOrder(q + 1, q', m);
    MulOrder(q' + 1, q, m);
  }

  /** Every frame of a sheet of splitX by splitY cells shows a cell that lies
      inside the sheet. */
  lemma FrameRectInSheet(frame: nat, splitX: nat, splitY: nat, sizeX: nat, sizeY: nat)
    requires splitX >= 1 && frame < splitX * splitY
    ensures 0 <= FrameRect(frame, splitX, sizeX, sizeY).left
    ensures FrameRect(frame, splitX, sizeX, sizeY).left + sizeX <= splitX * sizeX
    ensures 0 <= FrameRect(frame, splitX, sizeX, sizeY).top
    ensures FrameRect(frame, splitX, sizeX, sizeY).top + sizeY <= splitY * sizeY
  {
    QuotientBelow(frame, splitX, splitY);
    CellFits(frame % splitX, splitX, sizeX);
    CellFits(frame / splitX, splitY, sizeY);
  }

  lemma QuotientBelow(frame: nat, splitX: nat, splitY: nat)
    requires splitX >= 1 && frame < splitX * splitY
    ensures frame / splitX < splitY
  {
    var row := frame / splitX;
    assert frame == row * splitX + frame % splitX;
    assert splitY * splitX == splitX * splitY;
    MulOrder(splitY, row, splitX);
  }

  /** Cell `i` of `n` cells of size `size` ends inside the `n` cells. */
  lemma CellFits(i: nat, n: nat, size: nat)
    requires i < n
    ensures i * size + size <= n * size
  {
    assert (i + 1) * size == i * size + size;
    MulOrder(i + 1, n, size);
  }

  /** Different frames show different cells when cells are at least one
      pixel wide and high. */
  lemma FrameRectsDistinct(f: nat, g: nat, splitX: nat, sizeX: nat, sizeY: nat)
    requires splitX >= 1 && sizeX >= 1 && sizeY >= 1
    requires FrameRect(f, splitX, sizeX, sizeY) == FrameRect(g, splitX, sizeX, sizeY)
    ensures f == g
  {
    var a, b := f % splitX, g % splitX;
    var p, q := f / splitX, g / splitX;
    MulOrder(a + 1, b, sizeX);
    MulOrder(b + 1, a, sizeX);
    MulOrder(p + 1, q, sizeY);
    MulOrder(q + 1, p, sizeY);
    assert f == p * splitX + a && g == q * splitX + b;
  }

  /** The row search of setFrame ends at the quotient, and what is left of the
      frame is the remainder. */
  lemma RowIsQuotient(frame: nat, splitX: nat, row: nat)
    requires splitX >= 1 && row * splitX <= frame < (row + 1) * splitX
    ensures row == frame / splitX && frame - row * splitX == frame % splitX
  {
    assert (row + 1) * splitX == row * splitX + splitX;
    DivModUnique(frame, splitX, row, frame - row * splitX);
  }

  /** The frame after `frame`: one on, back to 0 past the last frame. */
  function NextFrame(frame: nat, frameMax: nat): nat {
    if frame + 1 > frameMax then 0 else frame + 1
  }

  /** The frame `k` delays after `frame`. */
  function Advance(frame: nat, frameMax: nat, k: nat): nat
    decreases k
  {
    if k == 0 then frame else NextFrame(Advance(frame, frameMax, k - 1), frameMax)
  }

  lemma ModStep(x: nat, m: nat)
    requires m >= 1
    ensures (x + 1) % m == if x % m + 1 == m then 0 else x % m + 1
  {
    var q, r := x / m, x % m;
    assert x == q * m + r;
    if r + 1 == m {
      assert x + 1 == (q + 1) * m + 0;
      DivModUnique(x + 1, m, q + 1, 0);
    } else {
      DivModUnique(x + 1, m, q, r + 1);
    }
  }

  /** Playback walks the frames cyclically: `k` delays after a valid frame
      it shows frame (frame + k) mod (frameMax + 1). */
  lemma {:induction false} AdvanceIsModulo(frame: nat, frameMax: nat, k: nat)
    requires frame <= frameMax
    ensures Advance(frame, frameMax, k) == (frame + k) % (frameMax + 1)
    ensures Advance(frame, frameMax, k) <= frameMax
  {
    if k > 0 {
      AdvanceIsModulo(frame, frameMax, k - 1);
      ModStep(frame + k - 1, frameMax + 1);
    }
  }

  /** How many delays the time loop of updateFrame consumes from `total`:
      it goes on while more than one delay is left. */
  function Steps(total: int, delay: int): nat
    requires delay > 0
  {
    if total > delay then (total - 1) / delay else 0
  }

  /** A loop that took `i` delays from `total`, stopped with at most one
      delay left, and had more than one left before its last turn, took
      Steps(total, delay) of them. */
  lemma StepsCount(total: int, delay: int, i: nat)
    requires delay > 0
    requires total - i * delay <= delay
    requires i > 0 ==> total - (i - 1) * delay > delay
    ensures i == Steps(total, delay)
  {
    if i > 0 {
      assert (i - 1) * delay == i * delay - delay;
      DivModUnique(total - 1, delay, i, total - 1 - i * delay);
    }
  }

  /** Everything the sprite keeps about its frames, as one value. */
  datatype SpriteState = SpriteState(
    isPlaying: bool,
    frameDelay: int,
    timePassed: int,
    splitX: nat,
    splitY: nat,
    sizeX: nat,
    sizeY: nat,
    frameMax: nat,
    currentFrame: nat,
    textureRect: IntRect,
    tileX: nat,
    tileY: nat)

  /** The default frame delay, 15 milliseconds. */
  const DefaultFrameDelay: int := 15000

  class AnimatedSprite {
    /** The sprite's entry in the texture cache. */
    const resource: TextureResource
    var isPlaying: bool
    var frameDelay: int
    var timePassed: int
    var splitX: nat
    var splitY: nat
    var sizeX: nat
    var sizeY: nat
    var frameMax: nat
    var currentFrame: nat
    var textureRect: IntRect
    var tileX: nat
    var tileY: nat

    function State(): SpriteState
      reads this
    {
      SpriteState(isPlaying, frameDelay, timePassed, splitX, splitY, sizeX, sizeY,
                  frameMax, currentFrame, textureRect, tileX, tileY)
    }

    /** The delay is positive and the current frame is one of the sheet's. */
    predicate Valid()
      reads this
    {
      frameDelay > 0 && currentFrame <= frameMax
    }

    /** The constructor (ponyban/AnimatedSprite.cpp:30-38,
        ponyban-cpp/ponyban/AnimatedSprite.cpp:27-33): not playing, the
        default delay, at tile (0, 0), and listed as a user of the cache. */
    constructor(cache: TextureCache)
      requires cache.Valid()
      modifies cache
      ensures Valid() && cache.Valid()
      ensures !isPlaying && frameDelay == DefaultFrameDelay && timePassed == 0
      ensures tileX == 0 && tileY == 0 && splitX == 0 && splitY == 0
      ensures fresh(resource) && resource.texture == null
      ensures cache.resourceList == old(cache.resourceList) + [resource]
      ensures cache.textureMap == old(cache.textureMap)
    {
      var r := cache.CreateResource();
      resource := r;
      isPlaying := false;
      frameDelay := DefaultFrameDelay;
      timePassed := 0;
      splitX, splitY, sizeX, sizeY := 0, 0, 0, 0;
      frameMax, currentFrame := 0, 0;
      textureRect := IntRect(0, 0, 0, 0);
      tileX, tileY := 0, 0;
    }

    /** The destructor (ponyban/AnimatedSprite.cpp:41-70): the sprite leaves
        the cache's user list, and its texture's entry goes when no other
        user holds it. */
    method Destroy(cache: TextureCache)
      requires cache.Valid() && resource in cache.resourceList
      modifies cache
      ensures cache.Valid()
      ensures cache.resourceList == RemoveAt(old(cache.resourceList), IndexOf(old(cache.resourceList), resource))
      ensures SharedBy(cache.resourceList, resource.texture) ==> cache.textureMap == old(cache.textureMap)
      ensures !SharedBy(cache.resourceList, resource.texture) ==>
        cache.textureMap == EraseValue(old(cache.textureMap), resource.texture)
    {
      cache.Destroy(resource);
    }

    /** setFrame (ponyban/AnimatedSprite.cpp:154-166,
        ponyban-cpp/ponyban/AnimatedSprite.cpp:108-120). The row search does
        not end when the sheet has no columns, which is the case before a
        sheet is loaded. */
    method SetFrame(frame: nat)
      requires frame <= frameMax ==> splitX >= 1
      modifies this
      ensures frame > old(frameMax) ==> State() == old(State())
      ensures frame <= old(frameMax) ==>
        State() == old(State()).(currentFrame := frame, textureRect := FrameRect(frame, old(splitX), old(sizeX), old(sizeY)))
    {
      if frame > frameMax {
        return;
      }
      var top: nat := 0;
      while (top + 1) * splitX <= frame
        invariant top * splitX <= frame
        decreases frame - top * splitX
      {
        top := top + 1;
      }
      RowIsQuotient(frame, splitX, top);
      var left := frame - top * splitX;
      left := left * sizeX;
      textureRect := IntRect(left, top * sizeY, sizeX, sizeY);
      currentFrame := frame;
    }

    /** updateFrame (ponyban/AnimatedSprite.cpp:141-151,
        ponyban-cpp/ponyban/AnimatedSprite.cpp:95-105): add the time that
        passed, then take one delay at a time while more than one delay is
        left, moving one frame on for each. */
    method UpdateFrame(elapsed: int)
      requires Valid()
      requires isPlaying && timePassed + elapsed > frameDelay ==> splitX >= 1
      modifies this
      ensures Valid()
      ensures !old(isPlaying) ==> State() == old(State())
      ensures old(isPlaying) ==> (
        var k := Steps(old(timePassed) + elapsed, old(frameDelay));
          && timePassed == old(timePassed) + elapsed - k * old(frameDelay)
          && timePassed <= old(frameDelay)
          && currentFrame == Advance(old(currentFrame), old(frameMax), k)
          && textureRect == (if k == 0 then old(textureRect) else FrameRect(currentFrame, old(splitX), old(sizeX), old(sizeY)))
          && State() == old(State()).(timePassed := timePassed, currentFrame := currentFrame, textureRect := textureRect))
    {
      if !isPlaying {
        return;
      }
      timePassed := timePassed + elapsed;
      ghost var total := timePassed;
      ghost var i: nat := 0;
      while timePassed > frameDelay
        invariant Valid()
        invariant timePassed == total - i * frameDelay
        invariant i > 0 ==> total - (i - 1) * frameDelay > frameDelay
        invariant currentFrame == Advance(old(currentFrame), frameMax, i)
        invariant total > frameDelay ==> splitX >= 1
        invariant textureRect == (if i == 0 then old(textureRect) else FrameRect(currentFrame, splitX, sizeX, sizeY))
        invariant State() == old(State()).(timePassed := timePassed, currentFrame := currentFrame, textureRect := textureRect)
        decreases timePassed
      {
        timePassed := timePassed - frameDelay;
        currentFrame := currentFrame + 1;
        if currentFrame > frameMax {
          currentFrame := 0;
        }
        i := i + 1;
        SetFrame(currentFrame);
      }
      StepsCount(total, frameDelay, i);
    }

    /** play() (ponyban/AnimatedSprite.cpp:169-172): play the whole sheet. */
    method Play()
      modifies this
      ensures State() == old(State()).(isPlaying := true)
    {
      PlayRange(0, frameMax);
    }

    /** play(frameStart, frameEnd) (ponyban/AnimatedSprite.cpp:173-177): a
        range outside the sheet falls back to the whole sheet; either way the
        sprite plays, and the range itself is not kept. */
    method PlayRange(frameStart: nat, frameEnd: nat)
      modifies this
      ensures State() == old(State()).(isPlaying := true)
      decreases if frameStart > frameMax || frameEnd > frameMax then 1 else 0
    {
      if frameStart > frameMax || frameEnd > frameMax {
        PlayRange(0, frameMax);
      }
      isPlaying := true;
    }

    /** stop (ponyban/AnimatedSprite.cpp:180-183). */
    method Stop()
      modifies this
      ensures State() == old(State()).(isPlaying := false)
    {
      isPlaying := false;
    }

    /** setFrameDelay (ponyban/AnimatedSprite.cpp:186-190): a delay of zero
        or less is ignored, so the delay stays positive. */
    method SetFrameDelay(time: int)
      requires Valid()
      modifies this
      ensures Valid()
      ensures time <= 0 ==> State() == old(State())
      ensures time > 0 ==> State() == old(State()).(frameDelay := time)
    {
      if time <= 0 {
        return;
      }
      frameDelay := time;
    }

    /** setTilePosition (ponyban/AnimatedSprite.cpp:115-120); the on-screen
        position in pixels is left out. */
    method SetTilePosition(x: nat, y: nat)
      modifies this
      ensures State() == old(State()).(tileX := x, tileY := y)
    {
      tileX := x;
      tileY := y;
    }

    /** getTilePositionX (ponyban/AnimatedSprite.cpp:123-126). */
    method GetTilePositionX() returns (x: nat)
      ensures x == tileX
    {
      return tileX;
    }

    /** getTilePositionY (ponyban/AnimatedSprite.cpp:129-132). */
    method GetTilePositionY() returns (y: nat)
      ensures y == tileY
    {
      return tileY;
    }

    /** The integer part of loadFromFile (ponyban/AnimatedSprite.cpp:73-105,
        ponyban-cpp/ponyban/AnimatedSprite.cpp:43-60): load or reuse the
        texture, then cut the sheet and show frame 0. A frame count of 0
        means every cell is a frame. The cell size divides by the split, so
        a split of 0 is not allowed. */
    method LoadFromFile(cache: TextureCache, fileName: string, splitX: nat, splitY: nat, frameCount: nat,
                        loads: bool, width: nat, height: nat) returns (ok: bool)
      requires Valid() && cache.Valid()
      requires fileName in cache.textureMap || loads ==> splitX >= 1 && splitY >= 1
      modifies this, cache, resource
      ensures Valid() && cache.Valid()
      ensures cache.resourceList == old(cache.resourceList)
      ensures ok <==> fileName in old(cache.textureMap) || loads
      ensures fileName in old(cache.textureMap) ==>
        resource.texture == old(cache.textureMap)[fileName] && cache.textureMap == old(cache.textureMap)
      ensures fileName !in old(cache.textureMap) && !loads ==>
        resource.texture == null && cache.textureMap == old(cache.textureMap)
      ensures fileName !in old(cache.textureMap) && loads ==>
        && resource.texture != null && fresh(resource.texture)
        && resource.texture.width == width && resource.texture.height == height
        && cache.textureMap == old(cache.textureMap)[fileName := resource.texture]
      ensures !ok ==> State() == old(State())
      ensures ok ==> resource.texture != null && State() == old(State()).(
        splitX := splitX, splitY := splitY,
        sizeX := resource.texture.width / splitX, sizeY := resource.texture.height / splitY,
        frameMax := if frameCount == 0 then splitX * splitY - 1 else frameCount - 1,
        currentFrame := 0,
        textureRect := FrameRect(0, splitX, resource.texture.width / splitX, resource.texture.height / splitY))
    {
      ok := cache.LoadTextureFromFile(resource, fileName, loads, width, height);
      if !ok {
        return;
      }
      CutSheet(resource.texture.width, resource.texture.height, splitX, splitY, frameCount);
    }

    /** The integer part of loadFromFile once the texture is there
        (ponyban/AnimatedSprite.cpp:95-102,
        ponyban-cpp/ponyban/AnimatedSprite.cpp:50-57). */
    method CutSheet(width: nat, height: nat, splitX: nat, splitY: nat, frameCount: nat)
      requires Valid() && splitX >= 1 && splitY >= 1
      modifies this
      ensures Valid()
      ensures State() == old(State()).(
        splitX := splitX, splitY := splitY,
        sizeX := width / splitX, sizeY := height / splitY,
        frameMax := if frameCount == 0 then splitX * splitY - 1 else frameCount - 1,
        currentFrame := 0,
        textureRect := FrameRect(0, splitX, width / splitX, height / splitY))
    {
      frameMax := if frameCount == 0 then splitX * splitY - 1 else frameCount - 1;
      this.splitX := splitX;
      this.splitY := splitY;
      sizeX := width / splitX;
      sizeY := height / splitY;
      SetFrame(0);
    }
  }
}
