/**
 * A texture package as the program holds it in memory: each texture's
 * metadata and its decoded image, in container order.
 */
module Package {
  import opened Formats
  import opened Headers
  import opened PixelCodec
  import opened Rasters

  datatype Texture = Texture(meta: TextureMeta, data: Raster)
  {
    /** The payload length the writer reserves: `meta.data_size(data.width(), data.height())`. */
    function Size(): nat
    {
      meta.DataSize(data.width, data.height)
    }
  }

  datatype TexturePackage = TexturePackage(textures: seq<Texture>)

  /** A texture as a reader sees it after a writer stored it. */
  function RequantisedTexture(t: Texture): (q: Texture)
    ensures q.meta == t.meta && q.data.width == t.data.width && q.data.height == t.data.height
  {
    Texture(t.meta, QuantiseRaster(t.meta.format, t.data))
  }

  /**
   * A package as a reader sees it after a writer stored it: same order,
   * metadata and sizes, each raster quantised to its format. This is the
   * reference definition that the read-after-write results are proved
   * against.
   */
  function Requantised(pkg: TexturePackage): (q: TexturePackage)
    ensures |q.textures| == |pkg.textures|
    ensures forall i | 0 <= i < |pkg.textures| :: q.textures[i] == RequantisedTexture(pkg.textures[i])
  {
    TexturePackage(seq(|pkg.textures|, i requires 0 <= i < |pkg.textures| => RequantisedTexture(pkg.textures[i])))
  }
}
