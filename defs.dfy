/** The constants and records of the engine's header: the cell marks,
    the pixel formats and the gradient and normal vectors. */
module Defs {
  import opened Grid

  // Marks of a cell.
  const SOURCE: byte := 0
  const TARGET: byte := 1
  const BOUNDARY: byte := 2
  // Scratch marks of the erosion and of the dilation.
  const ERODED: byte := 4
  const ERODEDNEXT: byte := 8

  /** Confidence of a known pixel, scaled for integer division. */
  const FULL_CONFIDENCE: int := 2048

  /** Pixel layouts of the engine. RGBA is 32-bit RGB whose alpha channel
      is the mask; YUV24 is packed 4:4:4 Y, U, V. */
  datatype PixelFormat = RGBA | RGB32 | RGB24 | YV12 | YUY2 | YUV24
  {
    /** The numeric tag of the format. */
    function Code(): int
    {
      match this
      case RGBA => 33
      case RGB32 => 32
      case RGB24 => 24
      case YV12 => 12
      case YUY2 => 2
      case YUV24 => 25
    }
  }

  /** The formats whose engine branches this model covers: the host never
      hands YUY2 to the engine, it repacks it as YUV24 first. */
  type EngineFormat = f: PixelFormat | f != YUY2 witness RGB32

  /** Isophote gradient, scaled by 2. */
  datatype Gradient = Gradient(gradX: int, gradY: int)

  /** Boundary normal, scaled by 256. */
  datatype Norm = Norm(normX: int, normY: int)

  /** A mark that the engine leaves between its top-level steps. */
  predicate IsCellMark(m: byte)
  {
    m == SOURCE || m == TARGET || m == BOUNDARY
  }
}
