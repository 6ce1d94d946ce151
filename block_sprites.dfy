/**
 * IsometricBlockSprites: one set of block sprites per view facing and zoom
 * level, kept in a registry, each set remembering the sprite it rendered
 * for every block appearance. Drawing a block model into a texture and the
 * palette's transparency test belong to the server library: the drawn
 * texture is a parameter and `isTransparent` a fixed function.
 */
module BlockSprites {
  import opened MapUtil
  import opened ZoomLevels

  newtype byte = x: int | 0 <= x < 256

  /** The appearance of a block: its block data and its state options. */
  datatype BlockRenderOptions = BlockRenderOptions(block: string, states: map<string, string>)

  /** A rendered sprite, and whether it covers every pixel of the tile mask. */
  datatype Sprite = Sprite(texture: seq<byte>, isFullyOpaque: bool)

  /** No pixel among the first `len` lies inside the mask and is transparent in the texture. */
  predicate FullyOpaque(texture: seq<byte>, mask: seq<byte>, len: int, isTransparent: byte -> bool)
    requires 0 <= len <= |texture| && len <= |mask|
  {
    forall i | 0 <= i < len :: !(mask[i] != 0 && isTransparent(texture[i]))
  }

  /** The opacity scan of renderSprite: stop at the first masked pixel the texture leaves transparent. */
  method OpacityScan(texture: seq<byte>, mask: seq<byte>, len: int, isTransparent: byte -> bool) returns (allOpaque: bool)
    requires 0 <= len <= |texture| && len <= |mask|
    ensures allOpaque <==> FullyOpaque(texture, mask, len, isTransparent)
  {
    allOpaque := true;
    var i := 0;
    while i < len
      invariant 0 <= i <= len
      invariant allOpaque <==> forall j | 0 <= j < i :: !(mask[j] != 0 && isTransparent(texture[j]))
      invariant !allOpaque ==> !FullyOpaque(texture, mask, len, isTransparent)
      decreases len - i, allOpaque
    {
      if mask[i] != 0 && isTransparent(texture[i]) {
        allOpaque := false;
        break;
      }
      i := i + 1;
    }
  }

  /** renderSprite: the texture drawn for a block, with its opacity flag. */
  method RenderSprite(texture: seq<byte>, mask: seq<byte>, width: int, height: int, isTransparent: byte -> bool)
    returns (s: Sprite)
    requires 0 <= width && 0 <= height && |texture| == width * height && |mask| == width * height
    ensures s.texture == texture
    ensures s.isFullyOpaque <==> FullyOpaque(texture, mask, width * height, isTransparent)
  {
    var allOpaque := OpacityScan(texture, mask, width * height, isTransparent);
    s := Sprite(texture, allOpaque);
  }

  class IsometricBlockSprites {
    const facing: BlockFace
    const zoom: ZoomLevel
    const width: int
    const height: int
    /** The tile mask of the zoom level, one byte per pixel. */
    const mask: seq<byte>
    const isTransparent: byte -> bool
    /** The sprite for air, rendered first. */
    const air: Sprite
    var spriteCache: map<BlockRenderOptions, Sprite>

    /** Every remembered sprite is a texture of the sprite size with its true opacity flag. */
    ghost predicate Valid()
      reads this
    {
      0 <= width && 0 <= height && |mask| == width * height &&
      forall o | o in spriteCache ::
        |spriteCache[o].texture| == width * height &&
        (spriteCache[o].isFullyOpaque <==> FullyOpaque(spriteCache[o].texture, mask, width * height, isTransparent))
    }

    /**
     * The sprites for a facing and zoom level: sprite size of the zoom
     * level, and the air sprite rendered and remembered from `airTexture`.
     */
    constructor (facing: BlockFace, zoom: ZoomLevel, mask: seq<byte>, isTransparent: byte -> bool,
                 airOptions: BlockRenderOptions, airTexture: seq<byte>)
      requires |mask| == Width(zoom) * Height(zoom) && |airTexture| == Width(zoom) * Height(zoom)
      ensures Valid()
      ensures this.facing == facing && this.zoom == zoom && this.mask == mask && this.isTransparent == isTransparent
      ensures width == Width(zoom) && height == Height(zoom)
      ensures spriteCache == map[airOptions := air] && air.texture == airTexture
    {
      this.facing := facing;
      this.zoom := zoom;
      this.mask := mask;
      this.isTransparent := isTransparent;
      width := Width(zoom);
      height := Height(zoom);
      var s := RenderSprite(airTexture, mask, Width(zoom), Height(zoom), isTransparent);
      air := s;
      spriteCache := map[airOptions := s];
    }

    /**
     * getSprite: the remembered sprite for `options`, or else the sprite
     * rendered from `texture` (the block model drawn for `options`), which
     * is remembered from then on.
     */
    method GetSprite(options: BlockRenderOptions, texture: seq<byte>) returns (s: Sprite)
      requires Valid() && |texture| == width * height
      modifies this`spriteCache
      ensures Valid()
      ensures options in spriteCache && spriteCache[options] == s
      ensures options in old(spriteCache) ==> s == old(spriteCache)[options] && spriteCache == old(spriteCache)
      ensures options !in old(spriteCache) ==>
        s.texture == texture && spriteCache == old(spriteCache)[options := s]
      ensures s.isFullyOpaque <==> FullyOpaque(s.texture, mask, width * height, isTransparent)
    {
      if options in spriteCache {
        s := spriteCache[options];
      } else {
        s := RenderSprite(texture, mask, width, height, isTransparent);
        spriteCache := spriteCache[options := s];
      }
    }
  }

  /** No two sprite sets of the registry share a facing and a zoom level. */
  predicate KeysUnique(instances: seq<IsometricBlockSprites>) {
    forall i, j | 0 <= i < j < |instances| ::
      !(instances[i].facing == instances[j].facing && instances[i].zoom == instances[j].zoom)
  }

  /** Some sprite set of the registry has this facing and zoom level. */
  predicate Registered(instances: seq<IsometricBlockSprites>, facing: BlockFace, zoom: ZoomLevel) {
    exists i | 0 <= i < |instances| :: instances[i].facing == facing && instances[i].zoom == zoom
  }

  /** The registry of getSprites. */
  class SpriteRegistry {
    var instances: seq<IsometricBlockSprites>

    constructor ()
      ensures instances == [] && KeysUnique(instances)
    {
      instances := [];
    }

    /**
     * getSprites: the registered sprite set for a facing and zoom level, or
     * else a new one, appended to the registry.
     */
    method GetSprites(facing: BlockFace, zoom: ZoomLevel, mask: seq<byte>, isTransparent: byte -> bool,
                      airOptions: BlockRenderOptions, airTexture: seq<byte>) returns (s: IsometricBlockSprites)
      requires KeysUnique(instances)
      requires |mask| == Width(zoom) * Height(zoom) && |airTexture| == Width(zoom) * Height(zoom)
      modifies this
      ensures KeysUnique(instances)
      ensures s in instances && s.facing == facing && s.zoom == zoom
      ensures Registered(old(instances), facing, zoom) ==> instances == old(instances)
      ensures !Registered(old(instances), facing, zoom) ==> instances == old(instances) + [s] && fresh(s) && s.Valid()
    {
      var i := 0;
      while i < |instances|
        invariant 0 <= i <= |instances|
        invariant forall j | 0 <= j < i :: !(instances[j].facing == facing && instances[j].zoom == zoom)
      {
        if instances[i].facing == facing && instances[i].zoom == zoom {
          return instances[i];
        }
        i := i + 1;
      }
      s := new IsometricBlockSprites(facing, zoom, mask, isTransparent, airOptions, airTexture);
      instances := instances + [s];
    }
  }
}
