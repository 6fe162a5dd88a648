/** The strips that the TIFF writer hands out. */
module StripWriter {
  import opened Arithmetic
  import opened Common
  import opened IndexSpace
  import opened Reorganise

  /** The bytes of all strips, one after the other. */
  function Joined(strips: seq<seq<byte>>): seq<byte>
  {
    if strips == [] then [] else Joined(strips[..|strips| - 1]) + strips[|strips| - 1]
  }

  lemma JoinedAppend(strips: seq<seq<byte>>, strip: seq<byte>)
    ensures Joined(strips + [strip]) == Joined(strips) + strip
  {
    assert (strips + [strip])[..|strips|] == strips;
  }

  /** How the library divides `lines` rows into strips. */
  function NumberOfStrips(lines: nat, rowsPerStrip: nat): nat
    requires rowsPerStrip > 0
  {
    (lines + rowsPerStrip - 1) / rowsPerStrip
  }

  lemma StripsCover(lines: nat, rowsPerStrip: nat)
    requires rowsPerStrip > 0
    ensures var n := NumberOfStrips(lines, rowsPerStrip);
            && n * rowsPerStrip >= lines
            && (n > 0 ==> (n - 1) * rowsPerStrip < lines)
  {
    var n, t := NumberOfStrips(lines, rowsPerStrip), lines + rowsPerStrip - 1;
    Division(t, rowsPerStrip);
    if n > 0 {
      OneMore(n - 1, rowsPerStrip);
    }
  }

  /** Fills the strip buffer with the next `n` samples of the result. */
  method FillStrip(data: array<byte>, indata: seq<byte>, org: Org, size: Dims, nbytes: nat,
                   start: nat, currStripSize: nat, ghost n: nat) returns (outSampleIdx: nat)
    requires size.Positive() && |indata| == size.Total() * nbytes && nbytes > 0
    requires start + n <= size.Total() && currStripSize == n * nbytes <= data.Length
    modifies data
    ensures outSampleIdx == start + n
    ensures Bip(indata, org, size, nbytes, outSampleIdx)
            == Bip(indata, org, size, nbytes, start) + data[..currStripSize]
  {
    hide Bip, Xpos, Cpos;
    outSampleIdx := start;
    SameTotal(org, size);
    var outSize := BipSize(org, size);
    var i := 0;
    ghost var k := 0;
    while i < currStripSize
      invariant k <= n && i == k * nbytes && outSampleIdx == start + k
      invariant i <= currStripSize
      invariant Bip(indata, org, size, nbytes, outSampleIdx) == Bip(indata, org, size, nbytes, start) + data[..i]
      decreases currStripSize - i
    {
      StepFits(k, n, nbytes);
      var p := Xpos(outSampleIdx, BIP, outSize);
      var srcSampleIdx := Cpos(p.x, p.y, p.z, org, size);
      SourceIs(outSampleIdx, org, size);
      SampleFits(size, nbytes, srcSampleIdx);
      NextBip(indata, org, size, nbytes, outSampleIdx);
      ghost var was := data[..i];
      CopyTo(data, i, Sample(indata, srcSampleIdx, nbytes));
      assert data[..i + nbytes] == was + Sample(indata, srcSampleIdx, nbytes);
      outSampleIdx, i, k := outSampleIdx + 1, i + nbytes, k + 1;
    }
    StepFits(k, n, nbytes);
  }

  lemma StepFits(k: nat, n: nat, m: nat)
    requires k <= n && m > 0
    ensures (k + 1) * m == k * m + m
    ensures k * m < n * m <==> k < n
    ensures k < n ==> k * m + m <= n * m
  {
    if k < n {
      Grows(k + 1, n, m);
    }
  }

  lemma SourceIs(i: nat, org: Org, size: Dims)
    requires size.Positive() && i < size.Total()
    ensures BipSize(org, size).Positive()
    ensures var p := Xpos(i, BIP, BipSize(org, size));
            Cpos(p.x, p.y, p.z, org, size) == Source(i, org, size) < size.Total()
  {
    SameTotal(org, size);
  }

  lemma NextBip(data: seq<byte>, org: Org, size: Dims, nbytes: nat, i: nat)
    requires size.Positive() && |data| == size.Total() * nbytes && i < size.Total()
    ensures (Source(i, org, size) + 1) * nbytes <= |data|
    ensures Bip(data, org, size, nbytes, i + 1)
            == Bip(data, org, size, nbytes, i) + Sample(data, Source(i, org, size), nbytes)
  {
    SampleFits(size, nbytes, Source(i, org, size));
  }

  /** The sizes when `left` rows of samples are still to be written. */
  lemma StripSizes(size: Dims, org: Org, nbytes: nat, rowsPerStrip: nat, left: nat, rows: nat)
    requires nbytes > 0 && size.Positive() && left <= Lines(size, org)
    requires rows == Min(rowsPerStrip, left)
    ensures var x, y, z := Samples(size, org), Lines(size, org), Bands(size, org);
            var row := x * z * nbytes;
            && Min(row * rowsPerStrip, row * left) == rows * (x * z) * nbytes == row * rows <= row * rowsPerStrip
            && (y - left) * (x * z) + rows * (x * z) == (y - left + rows) * (x * z) <= size.Total()
            && row * left - row * rows == row * (left - rows)
            && y * (x * z) == size.Total()
  {
    hide Samples, Lines, Bands;
    var x, y, z := Samples(size, org), Lines(size, org), Bands(size, org);
    var row := x * z * nbytes;
    Grows(rows, rowsPerStrip, row);
    Grows(rows, left, row);
    assert rows * (x * z) * nbytes == row * rows;
    TotalOf(org, size);
    Grows(y - left + rows, y, x * z);
    assert (y - left) * (x * z) + rows * (x * z) == (y - left + rows) * (x * z);
    assert row * left - row * rows == row * (left - rows);
  }

  lemma TotalOf(org: Org, size: Dims)
    ensures Lines(size, org) * (Samples(size, org) * Bands(size, org)) == size.Total()
  {
    var a, b, c := size.d0, size.d1, size.d2;
    match org
    case BSQ => assert b * (a * c) == c * (b * a);
    case BIL => assert c * (a * b) == c * (b * a);
    case BIP => assert c * (b * a) == c * (b * a);
  }

  /** Writes an image in strips of any number of rows: the strips together are what the
      converter makes of the image. */
  method WriteStrips(indata: seq<byte>, org: Org, size: Dims, nbytes: nat, rowsPerStrip: nat)
    returns (strips: seq<seq<byte>>, bytesRemaining: nat)
    requires size.Positive() && |indata| == size.Total() * nbytes && nbytes > 0 && rowsPerStrip > 0
    ensures Joined(strips) == Bip(indata, org, size, nbytes, size.Total())
    ensures bytesRemaining == 0
    ensures |strips| == NumberOfStrips(Lines(size, org), rowsPerStrip)
    ensures forall k :: 0 <= k < |strips| - 1 ==>
              |strips[k]| == Samples(size, org) * Bands(size, org) * nbytes * rowsPerStrip
  {
    hide Bip, Samples, Lines, Bands, NumberOfStrips, Joined;
    var x, y, z := Samples(size, org), Lines(size, org), Bands(size, org);
    var rowStride := x * z * nbytes;
    var stripsPerImage := NumberOfStrips(y, rowsPerStrip);
    bytesRemaining := rowStride * y;
    strips := [];
    var data := new byte[rowStride * rowsPerStrip](_ => 0);
    var outSampleIdx := 0;
    ghost var left := y;
    StripsCover(y, rowsPerStrip);
    NothingYet(indata, org, size, nbytes, x * z);
    for strip := 0 to stripsPerImage
      invariant left <= y && left == (if strip * rowsPerStrip < y then y - strip * rowsPerStrip else 0)
      invariant bytesRemaining == rowStride * left
      invariant outSampleIdx == (y - left) * (x * z) <= size.Total()
      invariant Joined(strips) == Bip(indata, org, size, nbytes, outSampleIdx)
      invariant |strips| == strip && forall k :: 0 <= k < strip && k < stripsPerImage - 1 ==>
                  |strips[k]| == rowStride * rowsPerStrip
      invariant fresh(data) && data.Length == rowStride * rowsPerStrip
    {
      ghost var rows := Min(rowsPerStrip, left);
      StripSizes(size, org, nbytes, rowsPerStrip, left, rows);
      StripRows(strip, stripsPerImage, rowsPerStrip, y);
      var currStripSize := Min(rowStride * rowsPerStrip, bytesRemaining);
      outSampleIdx := FillStrip(data, indata, org, size, nbytes, outSampleIdx, currStripSize, rows * (x * z));
      JoinedAppend(strips, data[..currStripSize]);
      strips := strips + [data[..currStripSize]];
      bytesRemaining := bytesRemaining - currStripSize;
      left := left - rows;
      forall k | 0 <= k < data.Length {
        data[k] := 0;
      }
    }
    TotalOf(org, size);
  }

  lemma NothingYet(data: seq<byte>, org: Org, size: Dims, nbytes: nat, m: nat)
    requires size.Positive() && |data| == size.Total() * nbytes
    ensures Joined([]) == Bip(data, org, size, nbytes, 0) && 0 * m == 0
  {}

  /** Only the last strip may be shorter. */
  lemma StripRows(strip: nat, n: nat, rowsPerStrip: nat, lines: nat)
    requires strip < n && (n - 1) * rowsPerStrip < lines
    ensures (strip + 1) * rowsPerStrip == strip * rowsPerStrip + rowsPerStrip
    ensures strip < n - 1 ==> (strip + 1) * rowsPerStrip < lines
  {
    if strip < n - 1 {
      Grows(strip + 1, n - 1, rowsPerStrip);
    }
  }
}
