/** libfs (libfs/src/init.rs) running on the floppy through the track-splitting wrappers. */
module FloppyMount {
  import opened Words
  import opened FloppyBus
  import opened Geometry
  import opened Floppy
  import FloppyFs
  import opened BlockMap
  import opened Mount

  function Zeros(n: nat): seq<byte> {
    seq(n, _ => 0)
  }

  /** The linear disk after formatting: header in sector 0, zeroed inode table in sectors 1 to 35. */
  function Formatted(s: seq<byte>, header: seq<byte>): seq<byte>
    requires |s| == FloppyFs.DISK_BYTES && |header| == SECTOR_SIZE
  {
    header + Zeros(TABLE_BYTES) + s[SECTOR_SIZE + TABLE_BYTES..]
  }

  /** `reformat_drive` with `floppyfs::write`. */
  method ReformatDrive(fdc: Fdc, header: seq<byte>, ghost s0: seq<byte>) returns (r: Outcome<FloppyError>)
    requires fdc.Ready() && |header| == SECTOR_SIZE && |s0| == FloppyFs.DISK_BYTES
    modifies fdc
    ensures fdc.Ready()
    ensures r.Pass? ==>
      && old(fdc.view.script) <= fdc.view.script
      && StoreOf(s0, fdc.view.script) == Formatted(StoreOf(s0, old(fdc.view.script)), header)
    ensures r.Fail? ==> NotAddress(r.error) && FloppyFs.Blamed(old(FloppyFs.Now(fdc)), FloppyFs.Now(fdc), r)
    ensures r.Pass? ==> FloppyFs.GoesOn(old(FloppyFs.Now(fdc)), FloppyFs.Now(fdc))
  {
    ghost var script0, start := fdc.view.script, FloppyFs.Now(fdc);
    ghost var pieces;
    r, pieces := FloppyFs.Write(fdc, 0, header, s0);
    if r.Fail? { return; }
    ghost var now := FloppyFs.Now(fdc);
    r, pieces := FloppyFs.Write(fdc, INODE_START, Zeros(TABLE_BYTES), s0);
    if r.Fail? {
      FloppyFs.BlamedLater(start, now, FloppyFs.Now(fdc), r);
    }
    if r.Pass? {
      FormatSplices(StoreOf(s0, script0), header);
    }
  }

  lemma FormattedTable(s: seq<byte>, header: seq<byte>)
    requires |s| == FloppyFs.DISK_BYTES && |header| == SECTOR_SIZE
    ensures Formatted(s, header)[SECTOR_SIZE..SECTOR_SIZE + TABLE_BYTES] == Zeros(TABLE_BYTES)
  {
  }

  lemma FormatSplices(s: seq<byte>, header: seq<byte>)
    requires |s| == FloppyFs.DISK_BYTES && |header| == SECTOR_SIZE
    ensures Splice(Splice(s, 0, header), SECTOR_SIZE, Zeros(TABLE_BYTES)) == Formatted(s, header)
  {
  }

  /** `read_table` with `floppyfs::read`: on a faithful drive the outcome is decided by the inode
      table on the linear disk. */
  method ReadTable(fdc: Fdc, tbl: InodeTable, bmp: BlockBitmap, ghost s0: seq<byte>)
    returns (r: Outcome<ReadTblError<FloppyError>>, active: nat, usedBlocks: nat)
    requires fdc.Ready() && tbl.Valid() && bmp.Valid() && |s0| == FloppyFs.DISK_BYTES
    requires tbl.slots.Length == INODES
    modifies fdc, tbl.slots, bmp.words, bmp`blocks
    ensures fdc.Ready() && bmp.Valid()
    ensures r.Fail? && r.error.ReadError? ==>
      NotAddress(r.error.e) && FloppyFs.Blamed(old(FloppyFs.Now(fdc)), FloppyFs.Now(fdc), Fail(r.error.e))
    ensures !(r.Fail? && r.error.ReadError?) && Faithful(s0, fdc.view.script) ==>
      var disk := StoreOf(s0, old(fdc.view.script));
      var nods := ParseTable(disk[SECTOR_SIZE..SECTOR_SIZE + TABLE_BYTES]);
      && (r.Pass? <==> Mountable(nods, old(bmp.blocks), bmp.held[..], tbl.held[..]))
      && (r.Pass? ==>
            && bmp.blocks == old(bmp.blocks) + Elements(TablePointers(nods))
            && usedBlocks == |bmp.blocks| - |old(bmp.blocks)|
            && active == |Active(nods, |nods|)| && tbl.slots[..active] == Active(nods, |nods|)
            && tbl.slots[active..] == old(tbl.slots[active..]))
  {
    var buf := new byte[TABLE_BYTES](_ => 0);
    active, usedBlocks := 0, 0;
    var read;
    ghost var pieces;
    read, pieces := FloppyFs.Read(fdc, INODE_START, buf, s0);
    if read.Fail? {
      return Fail(ReadError(read.error)), 0, 0;
    }
    var table := buf[..];
    if Faithful(s0, fdc.view.script) {
      TableRead(s0, old(fdc.view.script), fdc.view.script, table);
    }
    r, active, usedBlocks := LoadTable(ParseTable(table), tbl, bmp);
  }

  /** A read of the whole inode table, as a stretch of the linear disk. */
  lemma TableRead(s0: seq<byte>, before: seq<Entry>, after: seq<Entry>, table: seq<byte>)
    requires |s0| == FloppyFs.DISK_BYTES && |table| == TABLE_BYTES && Faithful(s0, after)
    requires FloppyFs.ReadSoFar(s0, before, after, INODE_START, table)
    ensures table == StoreOf(s0, before)[SECTOR_SIZE..SECTOR_SIZE + TABLE_BYTES]
  {
  }

  lemma {:induction false} NothingActive(nods: seq<INode>, n: nat)
    requires n <= |nods| && forall i | 0 <= i < n :: Available(nods[i])
    ensures Active(nods, n) == [] && Flat(Groups(nods), n) == []
  {
    if n > 0 {
      NothingActive(nods, n - 1);
    }
  }

  /** A zeroed table holds only free inodes. */
  lemma ZeroTable()
    ensures var nods := ParseTable(Zeros(TABLE_BYTES));
            Active(nods, |nods|) == [] && TablePointers(nods) == []
  {
    var nods := ParseTable(Zeros(TABLE_BYTES));
    forall i | 0 <= i < |nods|
      ensures Available(nods[i])
    {
      assert nods[i] == ParseInode(Zeros(TABLE_BYTES)[INODE_BYTES * i..INODE_BYTES * i + INODE_BYTES]);
    }
    NothingActive(nods, |nods|);
  }

  /** So it can be mounted on any bitmap, which then stays as it is. */
  lemma NothingToMount(used: set<nat>, held: seq<bool>, tblHeld: seq<bool>)
    requires |held| == WORDS && |tblHeld| >= INODES
    ensures var nods := ParseTable(Zeros(TABLE_BYTES));
            && |nods| == INODES && Mountable(nods, used, held, tblHeld)
            && Active(nods, |nods|) == [] && Elements(TablePointers(nods)) == {}
  {
    ZeroTable();
  }

  /** Format, then mount: from any prior contents of a faithful drive, if no I/O fails, the mount
      reports no inodes and no blocks and changes neither the table nor the bitmap. */
  method FormatThenMount(fdc: Fdc, header: seq<byte>, tbl: InodeTable, bmp: BlockBitmap, ghost s0: seq<byte>)
    returns (formatted: Outcome<FloppyError>, r: Outcome<ReadTblError<FloppyError>>, active: nat, usedBlocks: nat)
    requires fdc.Ready() && tbl.Valid() && bmp.Valid() && |header| == SECTOR_SIZE
    requires |s0| == FloppyFs.DISK_BYTES && tbl.slots.Length == INODES
    modifies fdc, tbl.slots, bmp.words, bmp`blocks
    ensures fdc.Ready() && bmp.Valid()
    ensures (formatted.Fail? ==> NotAddress(formatted.error)) && (r.Fail? && r.error.ReadError? ==> NotAddress(r.error.e))
    ensures formatted.Fail? ==> FloppyFs.Blamed(old(FloppyFs.Now(fdc)), FloppyFs.Now(fdc), formatted)
    ensures formatted.Pass? && r.Fail? && r.error.ReadError? ==>
      FloppyFs.Blamed(old(FloppyFs.Now(fdc)), FloppyFs.Now(fdc), Fail(r.error.e))
    ensures formatted.Pass? && !(r.Fail? && r.error.ReadError?) && Faithful(s0, fdc.view.script) ==>
      && r.Pass? && active == 0 && usedBlocks == 0
      && bmp.blocks == old(bmp.blocks) && tbl.slots[..] == old(tbl.slots[..])
  {
    formatted := ReformatDrive(fdc, header, s0);
    if formatted.Fail? {
      return formatted, Pass, 0, 0;
    }
    FormattedTable(StoreOf(s0, old(fdc.view.script)), header);
    NothingToMount(bmp.blocks, bmp.held[..], tbl.held[..]);
    ghost var start, now := old(FloppyFs.Now(fdc)), FloppyFs.Now(fdc);
    r, active, usedBlocks := ReadTable(fdc, tbl, bmp, s0);
    if r.Fail? && r.error.ReadError? {
      FloppyFs.BlamedLater(start, now, FloppyFs.Now(fdc), Fail(r.error.e));
    }
    assert tbl.slots[0..] == tbl.slots[..];
  }
}
