/** The three organisations, by putting the samples of an image one behind the other, and what the
    converter makes of them. */
module Layouts {
  import opened Arithmetic
  import opened Common
  import opened IndexSpace
  import opened Nested
  import opened Reorganise

  /** The data of an image of `nx` samples, `ny` lines and `nz` bands, of which `g` has the bytes of
      sample x, line y and band z: band after band, band after band in each line, or band after band
      in each pixel. */
  function Arranged(g: Cells, org: Org, nx: nat, ny: nat, nz: nat): seq<byte> {
    match org
    case BSQ => Planes((x: nat, y: nat, z: nat) => g(x, y, z), nx, ny, nz)
    case BIL => Planes((x: nat, z: nat, y: nat) => g(x, y, z), nx, nz, ny)
    case BIP => Planes((z: nat, x: nat, y: nat) => g(x, y, z), nz, nx, ny)
  }

  function Extents(org: Org, nx: nat, ny: nat, nz: nat): Dims {
    match org
    case BSQ => Dims(nx, ny, nz)
    case BIL => Dims(nx, nz, ny)
    case BIP => Dims(nz, nx, ny)
  }

  lemma ArrangedSize(g: Cells, org: Org, nx: nat, ny: nat, nz: nat, nbytes: nat)
    requires Sized(g, nbytes)
    ensures |Arranged(g, org, nx, ny, nz)| == Extents(org, nx, ny, nz).Total() * nbytes
  {
    match org
    case BSQ =>
      PlanesSize((x: nat, y: nat, z: nat) => g(x, y, z), nx, ny, nz, nbytes);
      Total(nx, ny, nz, nbytes);
    case BIL =>
      PlanesSize((x: nat, z: nat, y: nat) => g(x, y, z), nx, nz, ny, nbytes);
      Total(nx, nz, ny, nbytes);
    case BIP =>
      PlanesSize((z: nat, x: nat, y: nat) => g(x, y, z), nz, nx, ny, nbytes);
      Total(nz, nx, ny, nbytes);
  }

  /** In each organisation, the index of a pixel finds its sample. */
  lemma ArrangedAt(g: Cells, org: Org, nx: nat, ny: nat, nz: nat, nbytes: nat, x: nat, y: nat, z: nat)
    requires Sized(g, nbytes) && x < nx && y < ny && z < nz
    ensures InImage(Pixel(x, y, z), org, Extents(org, nx, ny, nz))
    ensures Part(Arranged(g, org, nx, ny, nz), Cpos(x, y, z, org, Extents(org, nx, ny, nz)) * nbytes, nbytes)
            == g(x, y, z)
  {
    hide Part, Planes;
    match org
    case BSQ => SampleAt((x: nat, y: nat, z: nat) => g(x, y, z), nx, ny, nz, nbytes, x, y, z);
    case BIL => SampleAt((x: nat, z: nat, y: nat) => g(x, y, z), nx, nz, ny, nbytes, x, z, y);
    case BIP => SampleAt((z: nat, x: nat, y: nat) => g(x, y, z), nz, nx, ny, nbytes, z, x, y);
  }

  /** Data of an image that has the samples of `g` at the indices of their pixels. */
  lemma ArrangedFrom(data: seq<byte>, g: Cells, org: Org, nx: nat, ny: nat, nz: nat, nbytes: nat)
    requires Sized(g, nbytes) && nx > 0 && ny > 0 && nz > 0
    requires |data| == Extents(org, nx, ny, nz).Total() * nbytes
    requires forall x, y, z :: 0 <= x < nx && 0 <= y < ny && 0 <= z < nz ==>
               Part(data, Cpos(x, y, z, org, Extents(org, nx, ny, nz)) * nbytes, nbytes) == g(x, y, z)
    ensures data == Arranged(g, org, nx, ny, nz)
  {
    hide Part, Planes;
    match org
    case BSQ => AllSamples(data, (x: nat, y: nat, z: nat) => g(x, y, z), nx, ny, nz, nbytes);
    case BIL => AllSamples(data, (x: nat, z: nat, y: nat) => g(x, y, z), nx, nz, ny, nbytes);
    case BIP => AllSamples(data, (z: nat, x: nat, y: nat) => g(x, y, z), nz, nx, ny, nbytes);
  }

  /** Whatever the organisation of an image, the converter makes the data of the same image in
      band-interleaved-by-pixel order. */
  lemma ConvertLaw(g: Cells, org: Org, nx: nat, ny: nat, nz: nat, nbytes: nat)
    requires Sized(g, nbytes) && nx > 0 && ny > 0 && nz > 0
    ensures var data, size := Arranged(g, org, nx, ny, nz), Extents(org, nx, ny, nz);
            && size.Positive() && |data| == size.Total() * nbytes
            && Bip(data, org, size, nbytes, size.Total()) == Arranged(g, BIP, nx, ny, nz)
  {
    hide Arranged, Part, Bip, Sample, Cpos;
    var data, size := Arranged(g, org, nx, ny, nz), Extents(org, nx, ny, nz);
    ArrangedSize(g, org, nx, ny, nz, nbytes);
    BipExtents(org, nx, ny, nz);
    var bip := Bip(data, org, size, nbytes, size.Total());
    forall x, y, z | 0 <= x < nx && 0 <= y < ny && 0 <= z < nz
      ensures Part(bip, Cpos(x, y, z, BIP, Extents(BIP, nx, ny, nz)) * nbytes, nbytes) == g(x, y, z)
    {
      ArrangedAt(g, org, nx, ny, nz, nbytes, x, y, z);
      BipPixel(data, org, size, nbytes, Pixel(x, y, z));
      SampleIsPart(data, Cpos(x, y, z, org, size), nbytes);
      SampleIsPart(bip, Cpos(x, y, z, BIP, BipSize(org, size)), nbytes);
    }
    ArrangedFrom(bip, g, BIP, nx, ny, nz, nbytes);
  }

  lemma BipExtents(org: Org, nx: nat, ny: nat, nz: nat)
    ensures var size := Extents(org, nx, ny, nz);
            BipSize(org, size) == Extents(BIP, nx, ny, nz) && size.Total() == Extents(BIP, nx, ny, nz).Total()
  {
    SameTotal(org, Extents(org, nx, ny, nz));
  }
}
