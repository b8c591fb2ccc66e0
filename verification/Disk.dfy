/** A byte stream over a device of 512-byte sectors.

    The device is a parameter: any content, and any choice of transfers that fail.  The
    stream refines a flat image of all bytes with a cursor. */
module Disk {
  import opened Bytes
  import opened Numbers

  const SECTOR := 512

  ghost predicate WholeSectors(sectors: seq<seq<Byte>>) {
    forall i :: 0 <= i < |sectors| ==> |sectors[i]| == SECTOR
  }

  /** All bytes of the device in one sequence. */
  ghost function Flat(sectors: seq<seq<Byte>>): (image: seq<Byte>)
    requires WholeSectors(sectors)
    ensures |image| == SECTOR * |sectors|
  {
    if sectors == [] then [] else sectors[0] + Flat(sectors[1..])
  }

  lemma {:induction false} FlatAt(sectors: seq<seq<Byte>>, s: nat, off: nat)
    requires WholeSectors(sectors) && s < |sectors| && off < SECTOR
    ensures SECTOR * s + off < SECTOR * |sectors| && Flat(sectors)[SECTOR * s + off] == sectors[s][off]
    decreases sectors
  {
    if s > 0 { FlatAt(sectors[1..], s - 1, off); }
  }

  /** `data` stored at `pos`, everything else unchanged. */
  ghost function Overwrite(image: seq<Byte>, pos: nat, data: seq<Byte>): (r: seq<Byte>)
    ensures |r| == |image|
  {
    seq(|image|, i requires 0 <= i < |image| => if pos <= i < pos + |data| then data[i - pos] else image[i])
  }

  /** The image holds `data` at `pos`. */
  ghost predicate HoldsAt(image: seq<Byte>, pos: nat, data: seq<Byte>) {
    data == [] || (pos + |data| <= |image| && image[pos..pos + |data|] == data)
  }

  // ----- the sector device

  class VirtioBlk {
    /** Which transfers fail, counted from the first. */
    const faulty: nat -> bool
    var sectors: seq<seq<Byte>>
    var transfers: nat

    constructor (faulty: nat -> bool, sectors: seq<seq<Byte>>)
      requires WholeSectors(sectors)
      ensures this.faulty == faulty && this.sectors == sectors && transfers == 0
    {
      this.faulty, this.sectors, this.transfers := faulty, sectors, 0;
    }

    method ReadSector(sector: nat, buf: array<Byte>) returns (ok: bool)
      requires WholeSectors(sectors) && buf.Length == SECTOR
      modifies this`transfers, buf
      ensures transfers == old(transfers) + 1
      ensures ok <==> sector < |sectors| && !faulty(old(transfers))
      ensures ok ==> buf[..] == sectors[sector]
    {
      ok := sector < |sectors| && !faulty(transfers);
      transfers := transfers + 1;
      if ok {
        forall i | 0 <= i < SECTOR { buf[i] := sectors[sector][i]; }
      }
    }

    method WriteSector(sector: nat, data: seq<Byte>) returns (ok: bool)
      requires WholeSectors(sectors) && |data| == SECTOR
      modifies this`transfers, this`sectors
      ensures transfers == old(transfers) + 1
      ensures ok <==> sector < |old(sectors)| && !faulty(old(transfers))
      ensures WholeSectors(sectors)
      ensures sectors == if ok then old(sectors)[sector := data] else old(sectors)
    {
      ok := sector < |sectors| && !faulty(transfers);
      transfers := transfers + 1;
      if ok {
        sectors := sectors[sector := data];
      }
    }
  }

  // ----- sectors and the flat image

  /** A piece of one sector is a piece of the image. */
  lemma {:induction false} SectorHolds(sectors: seq<seq<Byte>>, s: nat, off: nat, count: nat)
    requires WholeSectors(sectors) && s < |sectors| && off + count <= SECTOR
    ensures HoldsAt(Flat(sectors), SECTOR * s + off, sectors[s][off..off + count])
  {
    FlatSector(sectors, s);
    PieceHolds(Flat(sectors), SECTOR * s, sectors[s], off, count);
  }

  lemma PieceHolds(image: seq<Byte>, i: nat, part: seq<Byte>, off: nat, count: nat)
    requires i + SECTOR <= |image| && image[i..i + SECTOR] == part && off + count <= SECTOR
    ensures HoldsAt(image, i + off, part[off..off + count])
  {
    HoldsPiece(image, i, part, off, count);
  }

  lemma HoldsPiece(image: seq<Byte>, i: nat, part: seq<Byte>, off: nat, count: nat)
    requires i + |part| <= |image| && image[i..i + |part|] == part && off + count <= |part|
    ensures HoldsAt(image, i + off, part[off..off + count])
  {
    var x, y := part[off..off + count], image[i + off..i + off + count];
    forall k | 0 <= k < count ensures x[k] == y[k] {
      assert x[k] == image[i..i + |part|][off + k];
    }
    assert x == y;
  }

  lemma {:induction false} FlatSector(sectors: seq<seq<Byte>>, s: nat)
    requires WholeSectors(sectors) && s < |sectors|
    ensures SECTOR * s + SECTOR <= |Flat(sectors)|
    ensures Flat(sectors)[SECTOR * s..SECTOR * s + SECTOR] == sectors[s]
    decreases sectors
  {
    if s > 0 {
      var rest := Flat(sectors[1..]);
      FlatSector(sectors[1..], s - 1);
      var i := SECTOR * (s - 1);
      assert (sectors[0] + rest)[SECTOR + i..SECTOR + i + SECTOR] == rest[i..i + SECTOR];
    }
  }

  /** A sector with `data` put in at `off`. */
  ghost predicate Patched(before: seq<Byte>, blk: seq<Byte>, off: nat, data: seq<Byte>) {
    && |before| == |blk| == SECTOR && off + |data| <= SECTOR
    && forall i :: 0 <= i < SECTOR ==> blk[i] == if off <= i < off + |data| then data[i - off] else before[i]
  }

  /** Replacing a piece of one sector overwrites that piece of the image. */
  lemma SectorOverwrites(sectors: seq<seq<Byte>>, blk: seq<Byte>, s: nat, off: nat, data: seq<Byte>)
    requires WholeSectors(sectors) && s < |sectors| && Patched(sectors[s], blk, off, data)
    ensures Flat(sectors[s := blk]) == Overwrite(Flat(sectors), SECTOR * s + off, data)
  {
    var after, want := Flat(sectors[s := blk]), Overwrite(Flat(sectors), SECTOR * s + off, data);
    forall j | 0 <= j < |after| ensures after[j] == want[j] {
      var t, k := j / SECTOR, j % SECTOR;
      assert j == SECTOR * t + k && t < |sectors|;
      FlatAt(sectors[s := blk], t, k);
      FlatAt(sectors, t, k);
      OverwriteAt(sectors, blk, s, off, data, t, k);
    }
  }

  lemma OverwriteAt(sectors: seq<seq<Byte>>, blk: seq<Byte>, s: nat, off: nat, data: seq<Byte>, t: nat, k: nat)
    requires WholeSectors(sectors) && s < |sectors| && t < |sectors| && k < SECTOR
    requires Patched(sectors[s], blk, off, data) && SECTOR * t + k < SECTOR * |sectors|
    requires Flat(sectors)[SECTOR * t + k] == sectors[t][k]
    ensures Overwrite(Flat(sectors), SECTOR * s + off, data)[SECTOR * t + k] == sectors[s := blk][t][k]
  {
  }

  lemma OverwriteNothing(image: seq<Byte>, pos: nat)
    ensures Overwrite(image, pos, []) == image
  {
  }

  /** Two writes one after the other are one write of both pieces. */
  lemma OverwriteAppends(image: seq<Byte>, pos: nat, first: seq<Byte>, second: seq<Byte>)
    ensures Overwrite(Overwrite(image, pos, first), pos + |first|, second) ==
            Overwrite(image, pos, first + second)
  {
  }

  lemma HoldsAppends(image: seq<Byte>, pos: nat, first: seq<Byte>, second: seq<Byte>)
    requires HoldsAt(image, pos, first) && HoldsAt(image, pos + |first|, second)
    ensures HoldsAt(image, pos, first + second)
  {
  }

  /** What has been written can be read back. */
  lemma OverwriteHolds(image: seq<Byte>, pos: nat, data: seq<Byte>)
    requires pos + |data| <= |image|
    ensures HoldsAt(Overwrite(image, pos, data), pos, data)
  {
  }

  /** A piece fills the sector or ends the request. */
  lemma PieceEnds(pos: nat, sector: nat, offset: nat, count: nat, left: nat)
    requires pos == SECTOR * sector + offset && offset < SECTOR
    requires left > 0 && count == Min(SECTOR - offset, left)
    ensures count > 0 && pos + count <= SECTOR * (sector + 1)
    ensures count == left || (pos + count) % SECTOR == 0
  {
  }

  // ----- the stream

  datatype IoError = Other | Unsupported | InvalidInput

  datatype IoResult = Done(value: nat) | Failed(error: IoError)

  datatype SeekFrom = Start(start: nat) | Current(delta: int) | End(tail: int)

  /** A number cast to a signed 64-bit word. */
  function AsI64(x: int): (r: int)
    ensures -TWO63 <= r < TWO63
  {
    Signed(Pattern(x))
  }

  /** No transfer from the first to the last of an operation failed. */
  ghost predicate Healthy(faulty: nat -> bool, from: nat, to: nat) {
    forall k :: from <= k < to ==> !faulty(k)
  }

  class VirtioDisk {
    const driver: VirtioBlk
    var pos: nat

    constructor (driver: VirtioBlk)
      ensures this.driver == driver && pos == 0
    {
      this.driver, this.pos := driver, 0;
    }

    ghost predicate Valid()
      reads this, driver
    {
      WholeSectors(driver.sectors)
    }

    ghost function Image(): seq<Byte>
      requires Valid()
      reads this, driver
    {
      Flat(driver.sectors)
    }

    /** One turn of the loop of `read`: the rest of a sector, or of the buffer. */
    method ReadPiece(buf: array<Byte>, done: nat) returns (count: nat)
      requires Valid() && done < buf.Length
      modifies this`pos, driver`transfers, buf
      ensures driver.transfers == old(driver.transfers) + 1
      ensures count == 0 <==> |Image()| <= old(pos) || driver.faulty(old(driver.transfers))
      ensures count <= buf.Length - done && pos == old(pos) + count
      ensures count == 0 || count == buf.Length - done || pos % SECTOR == 0
      ensures HoldsAt(Image(), old(pos), buf[done..done + count])
      ensures buf[..done] == old(buf[..done]) && buf[done + count..] == old(buf[..])[done + count..]
    {
      var sector := pos / SECTOR;
      var offset := pos % SECTOR;
      var blk := new Byte[SECTOR](_ => 0);
      assert pos == SECTOR * sector + offset;
      var ok := driver.ReadSector(sector, blk);
      if !ok {
        return 0;
      }
      count := Min(SECTOR - offset, buf.Length - done);
      PieceEnds(pos, sector, offset, count, buf.Length - done);
      SectorHolds(driver.sectors, sector, offset, count);
      assert blk[offset..offset + count] == driver.sectors[sector][offset..offset + count];
      CopyInto(buf, done, blk[offset..offset + count]);
      pos := pos + count;
    }

    /** `copy_from_slice` into buf[done..]. */
    method CopyInto(buf: array<Byte>, done: nat, data: seq<Byte>)
      requires done + |data| <= buf.Length
      modifies buf
      ensures buf[done..done + |data|] == data
      ensures buf[..done] == old(buf[..done]) && buf[done + |data|..] == old(buf[..])[done + |data|..]
    {
      forall i | 0 <= i < |data| { buf[done + i] := data[i]; }
    }

    method Read(buf: array<Byte>) returns (r: IoResult)
      requires Valid()
      modifies this`pos, driver`transfers, buf
      ensures old(pos) <= pos <= old(pos) + buf.Length
      ensures HoldsAt(Image(), old(pos), buf[..pos - old(pos)])
      ensures buf[pos - old(pos)..] == old(buf[..])[pos - old(pos)..]
      ensures r.Done? ==> r.value == buf.Length && pos == old(pos) + buf.Length
      ensures r.Failed? ==> r.error == Other && pos < old(pos) + buf.Length && (pos == old(pos) || pos % SECTOR == 0)
      ensures driver.transfers >= old(driver.transfers)
      ensures r.Done? ==> Healthy(driver.faulty, old(driver.transfers), driver.transfers)
      ensures r.Failed? ==> driver.transfers > old(driver.transfers)
                            && (|Image()| <= pos || driver.faulty(driver.transfers - 1))
    {
      var done := 0;
      ghost var was, image := buf[..], Image();
      while done < buf.Length
        invariant 0 <= done <= buf.Length && pos == old(pos) + done
        invariant Image() == image && HoldsAt(image, old(pos), buf[..done])
        invariant buf[done..] == was[done..]
        invariant done == 0 || done == buf.Length || pos % SECTOR == 0
        invariant driver.transfers >= old(driver.transfers)
        invariant Healthy(driver.faulty, old(driver.transfers), driver.transfers)
      {
        ghost var before, rest := buf[..done], buf[done..];
        var count := ReadPiece(buf, done);
        assert buf[done + count..] == rest[count..] == was[done + count..];
        if count == 0 {
          return Failed(Other);
        }
        assert buf[..done + count] == before + buf[done..done + count];
        HoldsAppends(image, old(pos), before, buf[done..done + count]);
        done := done + count;
      }
      r := Done(done);
    }

    /** The new content of a sector; if only part of it changes, the rest is read first. */
    method PatchSector(sector: nat, offset: nat, data: seq<Byte>) returns (ok: bool, blk: seq<Byte>)
      requires Valid() && offset + |data| <= SECTOR
      modifies driver`transfers
      ensures driver.transfers <= old(driver.transfers) + 1 && driver.transfers >= old(driver.transfers)
      ensures ok ==> driver.transfers == old(driver.transfers) + if |data| == SECTOR then 0 else 1
      ensures ok ==> |blk| == SECTOR && Healthy(driver.faulty, old(driver.transfers), driver.transfers)
      ensures ok && sector < |driver.sectors| ==> Patched(driver.sectors[sector], blk, offset, data)
      ensures !ok ==> driver.transfers == old(driver.transfers) + 1
                      && (|driver.sectors| <= sector || driver.faulty(old(driver.transfers)))
    {
      var a := new Byte[SECTOR](_ => 0);
      if offset != 0 || |data| < SECTOR {
        ok := driver.ReadSector(sector, a);
        if !ok {
          return false, [];
        }
      }
      CopyInto(a, offset, data);
      ok, blk := true, a[..];
    }

    /** One turn of the loop of `write`; part of a sector is read, modified and written back. */
    method WritePiece(buf: seq<Byte>, done: nat) returns (count: nat)
      requires Valid() && done < |buf|
      modifies this`pos, driver`transfers, driver`sectors
      ensures Valid() && driver.transfers > old(driver.transfers)
      ensures count == 0 ==> |Image()| <= old(pos) || driver.faulty(driver.transfers - 1)
      ensures count != 0 ==> old(pos) + count <= |Image()|
                             && Healthy(driver.faulty, old(driver.transfers), driver.transfers)
      ensures count <= |buf| - done && pos == old(pos) + count
      ensures count != 0 ==> driver.transfers == old(driver.transfers) + if count == SECTOR then 1 else 2
      ensures count == 0 || count == |buf| - done || pos % SECTOR == 0
      ensures Image() == Overwrite(old(Image()), old(pos), buf[done..done + count])
    {
      var sector := pos / SECTOR;
      var offset := pos % SECTOR;
      assert pos == SECTOR * sector + offset;
      count := Min(SECTOR - offset, |buf| - done);
      var data := buf[done..done + count];
      ghost var before := driver.sectors;
      OverwriteNothing(Flat(before), pos);
      PieceEnds(pos, sector, offset, count, |buf| - done);
      var ok, blk := PatchSector(sector, offset, data);
      if !ok {
        return 0;
      }
      ok := driver.WriteSector(sector, blk);
      if !ok {
        return 0;
      }
      SectorOverwrites(before, blk, sector, offset, data);
      assert Image() == Overwrite(Flat(before), pos, data);
      pos := pos + count;
    }

    method Write(buf: seq<Byte>) returns (r: IoResult)
      requires Valid()
      modifies this`pos, driver`transfers, driver`sectors
      ensures Valid() && old(pos) <= pos <= old(pos) + |buf|
      ensures Image() == Overwrite(old(Image()), old(pos), buf[..pos - old(pos)])
      ensures pos == old(pos) || pos <= |Image()|
      ensures r.Done? ==> r.value == |buf| && pos == old(pos) + |buf|
      ensures r.Failed? ==> r.error == Other && pos < old(pos) + |buf| && (pos == old(pos) || pos % SECTOR == 0)
      ensures driver.transfers >= old(driver.transfers)
      ensures r.Done? ==> Healthy(driver.faulty, old(driver.transfers), driver.transfers)
      ensures r.Failed? ==> driver.transfers > old(driver.transfers)
                            && (|Image()| <= pos || driver.faulty(driver.transfers - 1))
    {
      var done := 0;
      OverwriteNothing(Image(), pos);
      while done < |buf|
        invariant 0 <= done <= |buf| && pos == old(pos) + done && Valid()
        invariant Image() == Overwrite(old(Image()), old(pos), buf[..done])
        invariant done > 0 ==> pos <= |Image()|
        invariant done == 0 || done == |buf| || pos % SECTOR == 0
        invariant driver.transfers >= old(driver.transfers)
        invariant Healthy(driver.faulty, old(driver.transfers), driver.transfers)
      {
        var count := WritePiece(buf, done);
        OverwriteAppends(old(Image()), old(pos), buf[..done], buf[done..done + count]);
        assert buf[..done] + buf[done..done + count] == buf[..done + count];
        if count == 0 {
          return Failed(Other);
        }
        done := done + count;
      }
      r := Done(done);
    }

    method Seek(target: SeekFrom) returns (r: IoResult)
      requires pos < TWO64 && Fits64(target)
      modifies this`pos
      ensures r == SeekWrapped(old(pos), target)
      ensures pos == if r.Done? then r.value else old(pos)
    {
      var target64 := 0;
      match target {
        case Start(off) => target64 := AsI64(off);
        case Current(off) =>
          WrapsOnce(pos, off);
          target64 := AsI64(AsI64(pos) + off);
        case End(_) => return Failed(Unsupported);
      }
      if target64 < 0 {
        return Failed(InvalidInput);
      }
      pos := target64;
      r := Done(pos);
    }
  }

  /** The cast of the cursor and the wrapping sum amount to one remainder. */
  lemma WrapsOnce(pos: nat, off: int)
    requires pos < TWO64 && -TWO63 <= off < TWO63
    ensures AsI64(AsI64(pos) + off) == Signed((pos + off) % TWO64)
  {
    var x := AsI64(pos);
    assert x == pos || x == pos - TWO64;
    assert (pos - TWO64 + off) % TWO64 == (pos + off) % TWO64;
  }

  /** Offsets that fit the 64-bit parameters. */
  predicate Fits64(target: SeekFrom) {
    && (target.Start? ==> target.start < TWO64)
    && (target.Current? ==> -TWO63 <= target.delta < TWO63)
  }

  /** Where a seek ought to go: the offset itself or relative to the cursor, if that is a
      signed 64-bit position; seeking from the end is not supported. */
  function SeekResult(pos: nat, target: SeekFrom): IoResult {
    match target
    case End(_) => Failed(Unsupported)
    case Start(off) => if off < TWO63 then Done(off) else Failed(InvalidInput)
    case Current(off) => if 0 <= pos + off < TWO63 then Done(pos + off) else Failed(InvalidInput)
  }

  /** Where it goes: the sum is taken modulo 2^64. */
  function SeekWrapped(pos: nat, target: SeekFrom): IoResult {
    match target
    case Current(off) =>
      var p := (pos + off) % TWO64;
      if p < TWO63 then Done(p) else Failed(InvalidInput)
    case _ => SeekResult(pos, target)
  }

  /** A seek is exact unless it moves from beyond 2^63 past the end of the 64-bit range. */
  lemma SeekExactlyWhen(pos: nat, target: SeekFrom)
    requires pos < TWO64 && Fits64(target)
    ensures SeekWrapped(pos, target) == SeekResult(pos, target) <==>
            (target.Current? ==> pos + target.delta < TWO64)
    ensures pos < TWO63 ==> SeekWrapped(pos, target) == SeekResult(pos, target)
    ensures target.End? ==> SeekWrapped(pos, target) == Failed(Unsupported)
    ensures target.Start? ==>
            SeekWrapped(pos, target) == if target.start < TWO63 then Done(target.start) else Failed(InvalidInput)
    ensures SeekWrapped(pos, target).Done? ==> SeekWrapped(pos, target).value < TWO63
  {
    if target.Current? {
      var p := pos + target.delta;
      assert p % TWO64 == if p < 0 then p + TWO64 else if p < TWO64 then p else p - TWO64;
    }
  }
}
