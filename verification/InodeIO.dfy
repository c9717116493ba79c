/** Reading and writing an inode's data (pintos/src/filesys/inode.c): loops over 512-byte sectors,
    with a bounce buffer for partial ones, that together behave like one flat array of bytes. */
module InodeIO {
  import opened Bytes
  import opened Sequences

  const SECTOR_SIZE: nat := 512

  type Sector = s: seq<byte> | |s| == SECTOR_SIZE witness seq(SECTOR_SIZE, i => 0)

  type off_t = x: int | -0x8000_0000 <= x < 0x8000_0000

  /** As few sectors as hold that many bytes. */
  function BytesToSectors(size: nat): (n: nat)
    ensures size <= 512 * n && (n > 0 ==> 512 * (n - 1) < size)
  {
    (size + SECTOR_SIZE - 1) / SECTOR_SIZE
  }

  /** A data extent: `start` and `length` of the on-disk inode. */
  datatype Extent = Extent(start: nat, length: nat)

  predicate OnDisk(e: Extent, sectors: seq<Sector>) {
    e.start + BytesToSectors(e.length) <= |sectors|
  }

  /** The file as the flat byte array its reader sees. */
  function Content(sectors: seq<Sector>, e: Extent): (bytes: seq<byte>)
    requires OnDisk(e, sectors)
    ensures |bytes| == e.length
  {
    seq(e.length, k requires 0 <= k < e.length => sectors[e.start + k / SECTOR_SIZE][k % SECTOR_SIZE])
  }

  /** Over the whole disk, exactly the bytes from position `base` on have been replaced. */
  ghost predicate Overwritten(sectors: seq<Sector>, sectors': seq<Sector>, base: nat, bytes: seq<byte>) {
    && |sectors'| == |sectors|
    && forall s, o :: 0 <= s < |sectors| && 0 <= o < SECTOR_SIZE ==>
      sectors'[s][o] == if base <= SECTOR_SIZE * s + o < base + |bytes|
                        then bytes[SECTOR_SIZE * s + o - base] else sectors[s][o]
  }

  /** The bytes with a part replaced. */
  function Patched(bytes: seq<byte>, at: nat, patch: seq<byte>): seq<byte>
    requires at + |patch| <= |bytes|
  {
    bytes[..at] + patch + bytes[at + |patch|..]
  }

  /** The bytes the request and the end of file leave to transfer. */
  function Available(e: Extent, size: int, offset: nat): nat {
    if size <= 0 || e.length <= offset then 0 else Min(size, e.length - offset)
  }

  /** How many bytes are transferred: all that are available or, when the bounce buffer cannot be
      allocated, the whole sectors before the first partial one. */
  function Transferred(e: Extent, size: int, offset: nat, bounceOk: bool): (n: nat)
    ensures n <= Available(e, size, offset)
  {
    var all := Available(e, size, offset);
    if bounceOk then all else if offset % SECTOR_SIZE == 0 then all - all % SECTOR_SIZE else 0
  }

  /** Up to the end of the file, or of the request; without a bounce buffer only whole sectors, as many
      as there are, and none if the first is not wanted whole. */
  predicate IsTransfer(n: nat, size: int, offset: nat, length: nat, bounceOk: bool) {
    var there := if size <= 0 || offset >= length then 0 else if size <= length - offset then size else length - offset;
    if bounceOk then n == there
    else if offset % 512 != 0 then n == 0
    else n % 512 == 0 && n <= there < n + 512
  }

  /** Bytes to transfer at this position without leaving the sector, the file or the request. */
  function ChunkSize(e: Extent, size: int, pos: nat): int {
    Min(size, Min(e.length - pos, SECTOR_SIZE - pos % SECTOR_SIZE))
  }

  /** Nothing but whole sectors so far. */
  predicate WholeSectors(offset: nat, n: nat) {
    n > 0 ==> offset % SECTOR_SIZE == 0 && n % SECTOR_SIZE == 0
  }

  /** The state of a transfer after n bytes. */
  predicate Progress(e: Extent, size: int, offset: nat, n: nat, bounceOk: bool) {
    n <= Available(e, size, offset) && (!bounceOk ==> WholeSectors(offset, n))
  }

  /** With no further chunk, everything available has been transferred. */
  lemma NoChunkLeft(e: Extent, size: int, offset: nat, n: nat, bounceOk: bool)
    requires Progress(e, size, offset, n, bounceOk)
    requires size - n <= 0 || ChunkSize(e, size - n, offset + n) <= 0
    ensures n == Transferred(e, size, offset, bounceOk)
  {
  }

  /** Without a bounce buffer the transfer ends at the first chunk that is not a whole sector. */
  lemma NoBounceBuffer(e: Extent, size: int, offset: nat, n: nat)
    requires Progress(e, size, offset, n, false)
    requires var chunk := ChunkSize(e, size - n, offset + n);
             chunk > 0 && !((offset + n) % SECTOR_SIZE == 0 && chunk == SECTOR_SIZE)
    ensures n == Transferred(e, size, offset, false)
  {
  }

  lemma NextChunk(e: Extent, sectors: seq<Sector>, size: int, offset: nat, n: nat, bounceOk: bool)
    requires OnDisk(e, sectors) && Progress(e, size, offset, n, bounceOk)
    requires ChunkSize(e, size - n, offset + n) > 0
    ensures var chunk := ChunkSize(e, size - n, offset + n);
            && offset + n + chunk <= e.length && n + chunk <= size
            && (offset + n) % SECTOR_SIZE + chunk <= SECTOR_SIZE
            && e.start + (offset + n) / SECTOR_SIZE < |sectors|
            && (bounceOk || ((offset + n) % SECTOR_SIZE == 0 && chunk == SECTOR_SIZE)
                ==> Progress(e, size, offset, n + chunk, bounceOk))
  {
  }

  class Disk {
    const sectors: array<Sector>

    constructor (count: nat)
      ensures fresh(sectors) && sectors.Length == count
    {
      sectors := new Sector[count](i => seq(SECTOR_SIZE, j => 0));
    }

    method Read(sector: nat, buffer: array<byte>, at: nat)
      requires sector < sectors.Length && at + SECTOR_SIZE <= buffer.Length
      modifies buffer
      ensures forall i :: 0 <= i < buffer.Length ==>
                buffer[i] == if at <= i < at + SECTOR_SIZE then sectors[sector][i - at] else old(buffer[i])
    {
      for k := 0 to SECTOR_SIZE
        invariant forall i :: 0 <= i < buffer.Length ==>
                    buffer[i] == if at <= i < at + k then sectors[sector][i - at] else old(buffer[i])
      {
        buffer[at + k] := sectors[sector][k];
      }
    }

    method Write(sector: nat, buffer: array<byte>, at: nat)
      requires sector < sectors.Length && at + SECTOR_SIZE <= buffer.Length
      modifies sectors
      ensures sectors[..] == old(sectors[..])[sector := buffer[at..at + SECTOR_SIZE]]
    {
      sectors[sector] := buffer[at..at + SECTOR_SIZE];
    }
  }

  method Memcpy(dst: array<byte>, to: nat, src: array<byte>, from: nat, size: nat)
    requires dst != src && to + size <= dst.Length && from + size <= src.Length
    modifies dst
    ensures forall i :: 0 <= i < dst.Length ==>
              dst[i] == if to <= i < to + size then src[i - to + from] else old(dst[i])
  {
    for k := 0 to size
      invariant forall i :: 0 <= i < dst.Length ==>
                  dst[i] == if to <= i < to + k then src[i - to + from] else old(dst[i])
    {
      dst[to + k] := src[from + k];
    }
  }

  /** The bounce buffer, allocated the first time it is needed; null if that fails. */
  method AllocateBounce(bounce: array?<byte>, bounceOk: bool) returns (r: array?<byte>)
    ensures r != bounce ==> bounce == null && r != null && fresh(r) && r.Length == SECTOR_SIZE
    ensures r == null <==> bounce == null && !bounceOk
  {
    r := bounce;
    if bounce == null && bounceOk {
      r := new byte[SECTOR_SIZE];
    }
  }

  class Inode {
    const disk: Disk
    const data: Extent

    predicate Valid()
      reads disk.sectors
    {
      OnDisk(data, disk.sectors[..]) && data.length < 0x8000_0000
    }

    constructor (disk: Disk, data: Extent)
      ensures this.disk == disk && this.data == data
    {
      this.disk := disk;
      this.data := data;
    }

    /** Sector of a byte, or -1 past the end of file. */
    function ByteToSector(pos: nat): (r: int)
      ensures pos >= data.length <==> r == -1
    {
      if pos < data.length then data.start + pos / SECTOR_SIZE else -1
    }

    /** Reads a chunk straight into the caller's buffer if it is a whole sector, and else through the
        bounce buffer. */
    method ReadSector(buffer: array<byte>, at: nat, bounce: array?<byte>, sector: nat, sectorOfs: nat, chunkSize: nat)
      requires sectorOfs + chunkSize <= SECTOR_SIZE && at + chunkSize <= buffer.Length && sector < disk.sectors.Length
      requires bounce == null ==> sectorOfs == 0 && chunkSize == SECTOR_SIZE
      requires bounce != null ==> buffer != bounce && bounce.Length == SECTOR_SIZE
      modifies buffer, bounce
      ensures buffer[..] == Patched(old(buffer[..]), at, disk.sectors[sector][sectorOfs..sectorOfs + chunkSize])
    {
      if sectorOfs == 0 && chunkSize == SECTOR_SIZE {
        disk.Read(sector, buffer, at);
      } else {
        disk.Read(sector, bounce, 0);
        Memcpy(buffer, at, bounce, sectorOfs, chunkSize);
      }
    }

    /** Reads the next chunk of a transfer that has read n bytes so far. */
    method ReadNext(buffer: array<byte>, offset: nat, n: nat, bounce: array?<byte>, sector: nat, sectorOfs: nat,
                    chunkSize: nat, ghost first: seq<byte>)
      requires Valid() && n + chunkSize <= buffer.Length && 0 < chunkSize && offset + n + chunkSize <= data.length
      requires sector == data.start + (offset + n) / SECTOR_SIZE < disk.sectors.Length
      requires sectorOfs == (offset + n) % SECTOR_SIZE && sectorOfs + chunkSize <= SECTOR_SIZE
      requires bounce == null ==> sectorOfs == 0 && chunkSize == SECTOR_SIZE
      requires bounce != null ==> buffer != bounce && bounce.Length == SECTOR_SIZE
      requires ReadInto(Content(disk.sectors[..], data), offset, n, first, buffer[..])
      modifies buffer, bounce
      ensures ReadInto(Content(disk.sectors[..], data), offset, n + chunkSize, first, buffer[..])
    {
      ghost var sectors, before := disk.sectors[..], buffer[..];
      ghost var piece := sectors[sector][sectorOfs..sectorOfs + chunkSize];
      ReadSector(buffer, n, bounce, sector, sectorOfs, chunkSize);
      ReadChunk(data, sectors, offset, n, sector, sectorOfs, piece, first, before, buffer[..]);
    }

    method ReadAt(buffer: array<byte>, size: off_t, offset: off_t, bounceOk: bool) returns (n: nat)
      requires Valid() && offset >= 0 && size <= buffer.Length
      modifies buffer
      ensures n == Transferred(data, size, offset, bounceOk)
      ensures ReadInto(Content(disk.sectors[..], data), offset, n, old(buffer[..]), buffer[..])
    {
      n := 0;
      var bounce: array?<byte> := null;
      var left: int, pos: nat := size, offset;
      ghost var sectors := disk.sectors[..];
      while left > 0
        invariant left == size - n && pos == offset + n && Progress(data, size, offset, n, bounceOk)
        invariant bounce != null ==> bounceOk && fresh(bounce) && bounce.Length == SECTOR_SIZE
        invariant disk.sectors[..] == sectors
        invariant ReadInto(Content(sectors, data), offset, n, old(buffer[..]), buffer[..])
      {
        var sectorIdx := ByteToSector(pos);
        var sectorOfs := pos % SECTOR_SIZE;
        var chunkSize := ChunkSize(data, left, pos);
        if chunkSize <= 0 { break; }
        NextChunk(data, sectors, size, offset, n, bounceOk);
        if !(sectorOfs == 0 && chunkSize == SECTOR_SIZE) {
          bounce := AllocateBounce(bounce, bounceOk);
          if bounce == null {
            NoBounceBuffer(data, size, offset, n);
            return;
          }
        }
        ReadNext(buffer, offset, n, bounce, sectorIdx, sectorOfs, chunkSize, old(buffer[..]));
        left, pos, n := left - chunkSize, pos + chunkSize, n + chunkSize;
      }
      NoChunkLeft(data, size, offset, n, bounceOk);
    }

    /** Writes a chunk, straight to disk if it is a whole sector; else the rest of the sector is read
        into the bounce buffer first and written back. */
    method WriteSector(buffer: array<byte>, at: nat, bounce: array?<byte>, sector: nat, sectorOfs: nat, chunkSize: nat)
      requires sectorOfs + chunkSize <= SECTOR_SIZE && at + chunkSize <= buffer.Length && sector < disk.sectors.Length
      requires bounce == null ==> sectorOfs == 0 && chunkSize == SECTOR_SIZE
      requires bounce != null ==> buffer != bounce && bounce.Length == SECTOR_SIZE
      modifies disk.sectors, bounce
      ensures disk.sectors[..] == old(disk.sectors[..])[sector := disk.sectors[sector]]
      ensures disk.sectors[sector] == Patched(old(disk.sectors[sector]), sectorOfs, buffer[at..at + chunkSize])
    {
      if sectorOfs == 0 && chunkSize == SECTOR_SIZE {
        disk.Write(sector, buffer, at);
      } else {
        var sectorLeft := SECTOR_SIZE - sectorOfs;
        if sectorOfs > 0 || chunkSize < sectorLeft {
          disk.Read(sector, bounce, 0);
        } else {
          // The bounce buffer would be zeroed here, but a whole sector is never bounced.
          assert false;
        }
        Memcpy(bounce, sectorOfs, buffer, at, chunkSize);
        disk.Write(sector, bounce, 0);
      }
    }

    /** Writes the next chunk of a transfer that has written n bytes so far. */
    method WriteNext(buffer: array<byte>, ghost base: nat, n: nat, bounce: array?<byte>, sector: nat, sectorOfs: nat,
                     chunkSize: nat, ghost first: seq<Sector>)
      requires sectorOfs + chunkSize <= SECTOR_SIZE && n + chunkSize <= buffer.Length && sector < disk.sectors.Length
      requires bounce == null ==> sectorOfs == 0 && chunkSize == SECTOR_SIZE
      requires bounce != null ==> buffer != bounce && bounce.Length == SECTOR_SIZE
      requires SECTOR_SIZE * sector + sectorOfs == base + n
      requires Overwritten(first, disk.sectors[..], base, buffer[..n])
      modifies disk.sectors, bounce
      ensures Overwritten(first, disk.sectors[..], base, buffer[..n + chunkSize])
    {
      ghost var before := disk.sectors[..];
      WriteSector(buffer, n, bounce, sector, sectorOfs, chunkSize);
      WriteChunk(base, n, chunkSize, sector, sectorOfs, first, before, disk.sectors[..], buffer[..]);
    }

    method WriteAt(buffer: array<byte>, size: off_t, offset: off_t, bounceOk: bool) returns (n: nat)
      requires Valid() && offset >= 0 && size <= buffer.Length
      modifies disk.sectors
      ensures n == Transferred(data, size, offset, bounceOk) && n <= buffer.Length
      ensures Overwritten(old(disk.sectors[..]), disk.sectors[..], SECTOR_SIZE * data.start + offset, buffer[..n])
    {
      n := 0;
      var bounce: array?<byte> := null;
      var left: int, pos: nat := size, offset;
      ghost var base := SECTOR_SIZE * data.start + offset;
      while left > 0
        invariant left == size - n && pos == offset + n && Progress(data, size, offset, n, bounceOk)
        invariant bounce != null ==> bounceOk && fresh(bounce) && bounce.Length == SECTOR_SIZE
        invariant n <= buffer.Length && Overwritten(old(disk.sectors[..]), disk.sectors[..], base, buffer[..n])
      {
        var sectorIdx := ByteToSector(pos);
        var sectorOfs := pos % SECTOR_SIZE;
        var chunkSize := ChunkSize(data, left, pos);
        if chunkSize <= 0 { break; }
        NextChunk(data, disk.sectors[..], size, offset, n, bounceOk);
        if !(sectorOfs == 0 && chunkSize == SECTOR_SIZE) {
          bounce := AllocateBounce(bounce, bounceOk);
          if bounce == null {
            NoBounceBuffer(data, size, offset, n);
            return;
          }
        }
        WriteNext(buffer, base, n, bounce, sectorIdx, sectorOfs, chunkSize, old(disk.sectors[..]));
        left, pos, n := left - chunkSize, pos + chunkSize, n + chunkSize;
      }
      NoChunkLeft(data, size, offset, n, bounceOk);
    }
  }

  /** The buffer starts with n bytes of the file from the offset on and is otherwise as before. */
  ghost predicate ReadInto(content: seq<byte>, offset: nat, n: nat, before: seq<byte>, buffer: seq<byte>) {
    && |buffer| == |before| && n <= |buffer| && (n > 0 ==> offset + n <= |content|)
    && forall i :: 0 <= i < |buffer| ==> buffer[i] == if i < n then content[offset + i] else before[i]
  }

  /** A chunk that stays in its sector holds consecutive bytes of the file. */
  lemma ChunkWithinSector(e: Extent, sectors: seq<Sector>, pos: nat, chunk: nat)
    requires OnDisk(e, sectors) && chunk > 0 && pos + chunk <= e.length
    requires pos % SECTOR_SIZE + chunk <= SECTOR_SIZE
    ensures e.start + pos / SECTOR_SIZE < |sectors|
    ensures forall k :: pos <= k < pos + chunk ==>
              Content(sectors, e)[k] == sectors[e.start + pos / SECTOR_SIZE][pos % SECTOR_SIZE + k - pos]
  {
    forall k | pos <= k < pos + chunk ensures k / SECTOR_SIZE == pos / SECTOR_SIZE
                                              && k % SECTOR_SIZE == pos % SECTOR_SIZE + k - pos { }
  }

  lemma ReadChunk(e: Extent, sectors: seq<Sector>, offset: nat, n: nat, sector: nat, ofs: nat, piece: seq<byte>,
                  before: seq<byte>, mid: seq<byte>, after: seq<byte>)
    requires OnDisk(e, sectors) && ReadInto(Content(sectors, e), offset, n, before, mid)
    requires piece != [] && offset + n + |piece| <= e.length && n + |piece| <= |mid|
    requires sector == e.start + (offset + n) / SECTOR_SIZE < |sectors| && ofs == (offset + n) % SECTOR_SIZE
    requires ofs + |piece| <= SECTOR_SIZE && piece == sectors[sector][ofs..ofs + |piece|]
    requires after == Patched(mid, n, piece)
    ensures ReadInto(Content(sectors, e), offset, n + |piece|, before, after)
  {
    var chunk := |piece|;
    var content := Content(sectors, e);
    ChunkWithinSector(e, sectors, offset + n, chunk);
    forall i | 0 <= i < |after| ensures after[i] == if i < n + chunk then content[offset + i] else before[i] {
      if n <= i < n + chunk { assert after[i] == piece[i - n]; } else { assert after[i] == mid[i]; }
    }
  }

  lemma WriteChunk(base: nat, n: nat, chunk: nat, sector: nat, ofs: nat,
                   first: seq<Sector>, before: seq<Sector>, after: seq<Sector>, buffer: seq<byte>)
    requires n + chunk <= |buffer| && ofs + chunk <= SECTOR_SIZE && SECTOR_SIZE * sector + ofs == base + n
    requires Overwritten(first, before, base, buffer[..n]) && sector < |before| == |after|
    requires after == before[sector := after[sector]]
    requires after[sector] == Patched(before[sector], ofs, buffer[n..n + chunk])
    ensures Overwritten(first, after, base, buffer[..n + chunk])
  {
    forall s, o | 0 <= s < |first| && 0 <= o < SECTOR_SIZE
      ensures after[s][o] == if base <= SECTOR_SIZE * s + o < base + n + chunk
                             then buffer[..n + chunk][SECTOR_SIZE * s + o - base] else first[s][o]
    {
      if s == sector && ofs <= o < ofs + chunk {
        assert after[s][o] == buffer[n..n + chunk][o - ofs];
      } else {
        assert after[s][o] == before[s][o];
      }
    }
  }

  /** Writing replaces exactly a window of the file's content. */
  lemma ContentOverwritten(e: Extent, sectors: seq<Sector>, sectors': seq<Sector>, offset: nat, bytes: seq<byte>)
    requires OnDisk(e, sectors) && (bytes != [] ==> offset + |bytes| <= e.length)
    requires Overwritten(sectors, sectors', SECTOR_SIZE * e.start + offset, bytes)
    ensures OnDisk(e, sectors')
    ensures bytes == [] ==> Content(sectors', e) == Content(sectors, e)
    ensures bytes != [] ==> Content(sectors', e) == Patched(Content(sectors, e), offset, bytes)
  {
    forall k | 0 <= k < e.length
      ensures Content(sectors', e)[k]
           == if offset <= k < offset + |bytes| then bytes[k - offset] else Content(sectors, e)[k]
    {
      assert SECTOR_SIZE * (e.start + k / SECTOR_SIZE) + k % SECTOR_SIZE == SECTOR_SIZE * e.start + k;
    }
  }

  /** And no byte of any sector outside the file's own sectors, nor of the slack after its end. */
  lemma OtherExtentUntouched(e: Extent, f: Extent, sectors: seq<Sector>, sectors': seq<Sector>, offset: nat,
                             bytes: seq<byte>)
    requires OnDisk(e, sectors) && OnDisk(f, sectors) && offset + |bytes| <= e.length
    requires e.start + BytesToSectors(e.length) <= f.start || f.start + BytesToSectors(f.length) <= e.start
    requires Overwritten(sectors, sectors', SECTOR_SIZE * e.start + offset, bytes)
    ensures Content(sectors', f) == Content(sectors, f)
  {
    forall k | 0 <= k < f.length ensures Content(sectors', f)[k] == Content(sectors, f)[k] {
      assert SECTOR_SIZE * (f.start + k / SECTOR_SIZE) + k % SECTOR_SIZE == SECTOR_SIZE * f.start + k;
    }
  }

  /** What was written is what a later read of the same place returns. */
  lemma ReadAfterWrite(e: Extent, sectors: seq<Sector>, sectors': seq<Sector>, offset: nat, bytes: seq<byte>,
                       before: seq<byte>, buffer: seq<byte>)
    requires OnDisk(e, sectors) && OnDisk(e, sectors') && (bytes != [] ==> offset + |bytes| <= e.length)
    requires Overwritten(sectors, sectors', SECTOR_SIZE * e.start + offset, bytes)
    requires ReadInto(Content(sectors', e), offset, |bytes|, before, buffer)
    ensures buffer == bytes + before[|bytes|..]
  {
    ContentOverwritten(e, sectors, sectors', offset, bytes);
  }

  lemma TransferredIs(e: Extent, size: int, offset: nat, bounceOk: bool)
    ensures IsTransfer(Transferred(e, size, offset, bounceOk), size, offset, e.length, bounceOk)
  {
  }

  /** A transfer falls short of what is available exactly when it needs a bounce buffer and gets none. */
  lemma TransferredAllIff(e: Extent, size: int, offset: nat, bounceOk: bool)
    ensures var all := Available(e, size, offset);
            Transferred(e, size, offset, bounceOk) == all
            <==> bounceOk || all == 0 || (offset % SECTOR_SIZE == 0 && all % SECTOR_SIZE == 0)
  {
  }
}
