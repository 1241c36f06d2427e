/** Sector addressing (kernel/src/floppy/disk.rs) and what the controller's command history means
    for the bytes on the platters. */
module Geometry {
  import opened Words
  import opened FloppyBus

  const HEADS: nat := 2
  const CYLINDERS: nat := 80
  const SECTORS: nat := 18
  const SECTOR_SIZE: nat := 512
  const DISK_SECTORS: nat := 2880

  datatype Chs = Chs(head: byte, cyl: byte, sect: byte)

  /** `lba_to_chs`; the cylinder is cast to u8. */
  function LbaToChs(lba: nat): Chs {
    Chs((lba % (HEADS * SECTORS)) / SECTORS,
        (lba / (SECTORS * HEADS)) % 0x100,
        (lba % (SECTORS * HEADS)) % SECTORS + 1)
  }

  /** The sector the controller accesses when given `c`. */
  function ChsToLba(c: Chs): int {
    (c.cyl * HEADS + c.head) * SECTORS + c.sect - 1
  }

  /** Cylinder, head and zero-based sector as quotients and remainders. */
  lemma Decompose(lba: nat) returns (q: nat, h: nat, k: nat)
    ensures lba == 36 * q + 18 * h + k && h < 2 && k < 18
    ensures LbaToChs(lba) == Chs(h, q % 0x100, k + 1)
  {
    q, h, k := lba / 36, lba % 36 / 18, lba % 36 % 18;
  }

  /** The address survives the trip through CHS exactly when its cylinder fits a byte: sectors
      from 9216 on alias the start of the disk. */
  lemma ChsRoundTrip(lba: nat)
    ensures ChsToLba(LbaToChs(lba)) == lba % 9216
    ensures ChsToLba(LbaToChs(lba)) == lba <==> lba < 9216
  {
    var q, h, k := Decompose(lba);
    assert lba == 9216 * (q / 256) + (36 * (q % 256) + 18 * h + k);
  }

  /** Conversely every triple of the drive's geometry is the image of its sector. */
  lemma LbaRoundTrip(c: Chs)
    requires c.head < HEADS && 1 <= c.sect <= SECTORS
    ensures LbaToChs(ChsToLba(c)) == c
  {
    var q, h, k := Decompose(ChsToLba(c));
    Unique(q, h, k, c.cyl, c.head, c.sect as int - 1);
  }

  lemma Unique(q: nat, h: nat, k: nat, q': nat, h': nat, k': nat)
    requires 36 * q + 18 * h + k == 36 * q' + 18 * h' + k' && h < 2 && h' < 2 && k < 18 && k' < 18
    ensures q == q' && h == h' && k == k'
  {
  }

  /** `ptr + sects - 1` on u16. */
  function EndLba(ptr: nat, sects: nat): nat {
    (ptr + sects + MOD16 - 1) % MOD16
  }

  datatype Verdict = Accept | EndOfDrive | BadSectOrHead(sect: byte, head: byte)

  /** The checks of `send_read_write`, in their order. */
  function Check(ptr: nat, sects: nat): Verdict {
    var start := LbaToChs(ptr);
    var end := LbaToChs(EndLba(ptr, sects));
    if end.cyl >= CYLINDERS then EndOfDrive
    else if start.sect > SECTORS || start.sect == 0 || start.head != end.head || start.cyl != end.cyl then
      BadSectOrHead(start.sect, start.head)
    else Accept
  }

  /** The eight parameter bytes of a read or write. */
  function TransferParams(drive: bool, ptr: nat, sects: nat): seq<byte> {
    var start := LbaToChs(ptr);
    [(if drive then 1 else 0) + 4 * start.head, start.cyl, start.head, start.sect,
     2, LbaToChs(EndLba(ptr, sects)).sect, 0x1B, 0xFF]
  }

  /** The first byte that parameters `ps` make the drive transfer. */
  function StartOf(ps: seq<byte>): int
    requires |ps| == 8
  {
    SECTOR_SIZE * ChsToLba(Chs(ps[2], ps[1], ps[3]))
  }

  /** The checks in terms of quotients and remainders. */
  lemma CheckAt(ptr: nat, n: nat) returns (q: nat, h: nat, k: nat, q': nat, h': nat, k': nat)
    requires n >= 1 && ptr + n <= MOD16
    ensures ptr == 36 * q + 18 * h + k && h < 2 && k < 18
    ensures ptr + n - 1 == 36 * q' + 18 * h' + k' && h' < 2 && k' < 18
    ensures Check(ptr, n) == Accept <==> q' % 0x100 < CYLINDERS && h == h' && q % 0x100 == q' % 0x100
  {
    assert EndLba(ptr, n) == ptr + n - 1;
    q, h, k := Decompose(ptr);
    q', h', k' := Decompose(ptr + n - 1);
  }

  /** For small, in-range requests the checks accept exactly those within one track. */
  lemma AcceptIff(ptr: nat, n: nat)
    requires ptr < 9216 && 1 <= n <= SECTORS
    ensures Check(ptr, n) == Accept <==> ptr + n <= DISK_SECTORS && ptr / SECTORS == (ptr + n - 1) / SECTORS
  {
    var q, h, k, q', h', k' := CheckAt(ptr, n);
    AcceptCore(q, h, k, q', h', k', n);
    TrackOf(q, h, k);
    TrackOf(q', h', k');
  }

  /** Which refusal a small request gets: past the end of the disk, or across a track boundary, with the
      one-based sector and the head it starts at. */
  lemma VerdictIs(ptr: nat, n: nat)
    requires 1 <= n <= SECTORS && ptr + n <= 9216
    ensures Check(ptr, n) == EndOfDrive <==> ptr + n > DISK_SECTORS
    ensures Check(ptr, n).BadSectOrHead? <==> ptr + n <= DISK_SECTORS && ptr / SECTORS != (ptr + n - 1) / SECTORS
    ensures Check(ptr, n).BadSectOrHead? ==>
              Check(ptr, n).sect as int == ptr % SECTORS + 1 && Check(ptr, n).head as int == ptr / SECTORS % HEADS
  {
    AcceptIff(ptr, n);
    VerdictEnd(ptr, n);
    if Check(ptr, n).BadSectOrHead? {
      StartPlace(ptr);
      VerdictPlace(ptr, n);
    }
  }

  lemma VerdictEnd(ptr: nat, n: nat)
    requires 1 <= n <= SECTORS && ptr + n <= 9216
    ensures Check(ptr, n) == EndOfDrive <==> ptr + n > DISK_SECTORS
  {
    EndLbaIs(ptr, n);
    LastCylinder(ptr + n - 1);
  }

  lemma LastCylinder(lba: nat)
    requires lba < 9216
    ensures LbaToChs(lba).cyl >= CYLINDERS <==> lba >= DISK_SECTORS
  {
    var q, h, k := Decompose(lba);
    assert q % 0x100 == q;
  }

  lemma StartPlace(lba: nat)
    ensures LbaToChs(lba).sect as int == lba % SECTORS + 1 && LbaToChs(lba).head as int == lba / SECTORS % HEADS
  {
    var q, h, k := Decompose(lba);
    TrackOf(q, h, k);
    SectorOf(q, h, k);
  }

  lemma SectorOf(q: nat, h: nat, k: nat)
    requires h < 2 && k < 18
    ensures (36 * q + 18 * h + k) % SECTORS == k && (2 * q + h) % HEADS == h
  {
  }

  lemma VerdictPlace(ptr: nat, n: nat)
    requires Check(ptr, n).BadSectOrHead?
    ensures Check(ptr, n) == BadSectOrHead(LbaToChs(ptr).sect, LbaToChs(ptr).head)
  {
  }

  lemma AcceptCore(q: nat, h: nat, k: nat, q': nat, h': nat, k': nat, n: nat)
    requires q < 256 && h < 2 && h' < 2 && k < 18 && k' < 18 && 1 <= n <= 18
    requires 36 * q' + 18 * h' + k' == 36 * q + 18 * h + k + n - 1
    ensures q' % 0x100 < CYLINDERS && h == h' && q == q' % 0x100
            <==> 36 * q + 18 * h + k + n <= DISK_SECTORS && 2 * q + h == 2 * q' + h'
  {
    assert q' == q || q' == q + 1;
  }

  lemma TrackOf(q: nat, h: nat, k: nat)
    requires h < 2 && k < 18
    ensures (36 * q + 18 * h + k) / SECTORS == 2 * q + h
  {
  }

  /** A request of up to the whole disk that the checks accept is at most one track long. */
  lemma OneTrackOnly(ptr: nat, n: nat)
    requires ptr < 9216 && 1 <= n <= DISK_SECTORS && Check(ptr, n) == Accept
    ensures n <= SECTORS
  {
    var q, h, k, q', h', k' := CheckAt(ptr, n);
    WithinTrack(q, h, k, q', h', k', n);
  }

  lemma WithinTrack(q: nat, h: nat, k: nat, q': nat, h': nat, k': nat, n: nat)
    requires 36 * q' + 18 * h' + k' == 36 * q + 18 * h + k + n - 1 && n <= DISK_SECTORS
    requires q < 256 && h == h' && k < 18 && k' < 18 && q % 0x100 == q' % 0x100
    ensures n <= SECTORS
  {
    assert q' == 256 * (q' / 256) + q' % 256;
  }

  lemma ParamsMean(drive: bool, ptr: nat, sects: nat)
    ensures var ps := TransferParams(drive, ptr, sects);
            StartOf(ps) == SECTOR_SIZE * (ptr % 9216) && SpanOf(ps) <= SECTOR_SIZE * SECTORS
  {
    ChsRoundTrip(ptr);
  }

  lemma SameTrackSpan(ptr: nat, n: nat)
    requires 1 <= n <= SECTORS && ptr + n < MOD16 && ptr / SECTORS == (ptr + n - 1) / SECTORS
    ensures LbaToChs(EndLba(ptr, n)).sect as int == LbaToChs(ptr).sect as int + n - 1
  {
    var q, h, k := Decompose(ptr);
    var q', h', k' := Decompose(ptr + n - 1);
    EndLbaIs(ptr, n);
    TrackOf(q, h, k);
    TrackOf(q', h', k');
    SectorsApart(q, h, k, q', h', k', n);
  }

  lemma EndLbaIs(ptr: nat, n: nat)
    requires n >= 1 && ptr + n <= MOD16
    ensures EndLba(ptr, n) == ptr + n - 1
  {
  }

  lemma SectorsApart(q: nat, h: nat, k: nat, q': nat, h': nat, k': nat, n: nat)
    requires 36 * q' + 18 * h' + k' == 36 * q + 18 * h + k + n - 1 && 2 * q + h == 2 * q' + h'
    ensures k' == k + n - 1
  {
  }

  /** The parameters select this drive, and the same head twice, with sectors of 128 * 2^2 bytes, a gap of
      0x1B bytes and no explicit data length. */
  predicate Addressed(ps: seq<byte>, drive: bool) {
    && |ps| == 8 && ps[0] % 4 == (if drive then 1 else 0) && ps[0] / 4 == ps[2]
    && ps[4] == 2 && ps[6] == 0x1B && ps[7] == 0xFF
  }

  lemma ParamsAddressed(drive: bool, ptr: nat, sects: nat)
    ensures Addressed(TransferParams(drive, ptr, sects), drive)
  {
    var q, h, k := Decompose(ptr);
  }

  /** The drive and sectors that the parameters of request (`ptr`, `n`) denote are those asked for. */
  ghost predicate Denotes(drive: bool, ptr: nat, n: nat) {
    var ps := TransferParams(drive, ptr % MOD16, n % MOD16);
    StartOf(ps) == SECTOR_SIZE * ptr && SpanOf(ps) == SECTOR_SIZE * n && Addressed(ps, drive)
  }

  lemma DenotesTrack(drive: bool, ptr: nat, n: nat)
    requires ptr < 9216 && 1 <= n <= SECTORS && ptr / SECTORS == (ptr + n - 1) / SECTORS
    ensures Denotes(drive, ptr, n)
  {
    Narrow(ptr);
    Narrow(n);
    TrackStart(drive, ptr, n);
    TrackSpan(drive, ptr, n);
    ParamsAddressed(drive, ptr, n);
  }

  lemma TrackStart(drive: bool, ptr: nat, n: nat)
    requires ptr < 9216
    ensures StartOf(TransferParams(drive, ptr, n)) == SECTOR_SIZE * ptr
  {
    ParamsMean(drive, ptr, n);
  }

  lemma TrackSpan(drive: bool, ptr: nat, n: nat)
    requires ptr < 9216 && 1 <= n <= SECTORS && ptr / SECTORS == (ptr + n - 1) / SECTORS
    ensures SpanOf(TransferParams(drive, ptr, n)) == SECTOR_SIZE * n
  {
    SameTrackSpan(ptr, n);
    ParamSectors(drive, ptr, n);
    SpanIs(TransferParams(drive, ptr, n), LbaToChs(ptr).sect, n);
  }

  lemma ParamSectors(drive: bool, ptr: nat, n: nat)
    ensures var ps := TransferParams(drive, ptr, n);
            ps[3] == LbaToChs(ptr).sect && ps[5] == LbaToChs(EndLba(ptr, n)).sect
  {
  }

  lemma SpanIs(ps: seq<byte>, first: nat, n: nat)
    requires |ps| == 8 && ps[3] == first && n >= 1 && ps[5] as int == first + n - 1
    ensures SpanOf(ps) == SECTOR_SIZE * n
  {
  }

  lemma DenotesOnlySmall(drive: bool, ptr: nat, n: nat)
    requires Denotes(drive, ptr, n)
    ensures ptr < 9216 && n <= SECTORS
  {
    ParamsMean(drive, ptr % MOD16, n % MOD16);
  }

  lemma CheckSmall(drive: bool, ptr: nat, n: nat)
    requires ptr < 9216 && 1 <= n <= SECTORS && Check(ptr % MOD16, n % MOD16) == Accept
    ensures Denotes(drive, ptr, n)
  {
    Narrow(ptr);
    Narrow(n);
    OnTrack(ptr, n);
    DenotesTrack(drive, ptr, n);
  }

  lemma Narrow(x: nat)
    requires x < MOD16
    ensures x % MOD16 == x
  {
  }

  lemma OnTrack(ptr: nat, n: nat)
    requires ptr < 9216 && 1 <= n <= SECTORS && Check(ptr, n) == Accept
    ensures ptr / SECTORS == (ptr + n - 1) / SECTORS
  {
    AcceptIff(ptr, n);
  }

  /** A request the checks accept is carried out on exactly the sectors asked for if and only
      if it starts below sector 9216 and asks for at most one track; a longer or higher request
      that slips through the truncating casts hits other sectors. */
  lemma DenotesIff(drive: bool, ptr: nat, n: nat)
    requires n >= 1
    requires Check(ptr % MOD16, n % MOD16) == Accept
    ensures Denotes(drive, ptr, n) <==> ptr < 9216 && n <= SECTORS
  {
    if ptr < 9216 && n <= SECTORS {
      CheckSmall(drive, ptr, n);
    } else if Denotes(drive, ptr, n) {
      DenotesOnlySmall(drive, ptr, n);
    }
  }

  /** Two different requests that reach the same sector. */
  lemma AliasExample()
    ensures Check(9234, 18) == Accept && Check(18, 18) == Accept
    ensures TransferParams(false, 9234, 18) == TransferParams(false, 18, 18)
  {
    assert EndLba(9234, 18) == 9251 && EndLba(18, 18) == 35;
    assert LbaToChs(9234) == LbaToChs(18) == Chs(1, 0, 1);
    assert LbaToChs(9251) == LbaToChs(35) == Chs(1, 0, 18);
  }

  // ----- the platters

  function Splice(s: seq<byte>, at: nat, d: seq<byte>): (r: seq<byte>)
    requires at + |d| <= |s|
    ensures |r| == |s|
  {
    s[..at] + d + s[at + |d|..]
  }

  predicate IsTransfer(e: Entry, op: byte) {
    e.Cmd? && e.op == op && |e.params| == 8
  }

  /** The effect of one command on the platters: a write stores the bytes sent so far. */
  function Stored(s: seq<byte>, e: Entry): (r: seq<byte>)
    ensures |r| == |s|
  {
    if IsTransfer(e, WRITE_DATA) then
      var d := e.sent[..Min(|e.sent|, SpanOf(e.params))];
      var at := StartOf(e.params);
      if 0 <= at && at + |d| <= |s| then Splice(s, at, d) else s
    else s
  }

  ghost function StoreOf(s0: seq<byte>, script: seq<Entry>): (r: seq<byte>)
    ensures |r| == |s0|
  {
    if script == [] then s0
    else Stored(StoreOf(s0, script[..|script| - 1]), script[|script| - 1])
  }

  /** A read entry delivered what the platters held at the time. */
  ghost predicate Truthful(s: seq<byte>, e: Entry) {
    IsTransfer(e, READ_DATA) ==>
      var g := e.got[..Min(|e.got|, SpanOf(e.params))];
      var at := StartOf(e.params);
      0 <= at && at + |g| <= |s| ==> g == s[at..at + |g|]
  }

  /** A drive that returns what was written to it. */
  ghost predicate Faithful(s0: seq<byte>, script: seq<Entry>) {
    forall i | 0 <= i < |script| :: Truthful(StoreOf(s0, script[..i]), script[i])
  }

  /** `after` continues `before` with quiet entries and attempts at one transfer, each of which
      sent at most a prefix of `buf`. */
  predicate Attempts(before: seq<Entry>, after: seq<Entry>, op: byte, ps: seq<byte>, buf: seq<byte>) {
    && before <= after
    && forall i | |before| <= i < |after| ::
         Quiet(after[i]) || (after[i].op == op && after[i].params == ps && after[i].sent <= buf)
  }

  ghost predicate SameOutside(x: seq<byte>, y: seq<byte>, at: nat, n: nat) {
    |x| == |y| && at + n <= |x| && x[..at] == y[..at] && x[at + n..] == y[at + n..]
  }

  lemma StoreAppend(s0: seq<byte>, script: seq<Entry>, e: Entry)
    ensures StoreOf(s0, script + [e]) == Stored(StoreOf(s0, script), e)
  {
    assert (script + [e])[..|script|] == script;
  }

  /** Failed attempts, however many, disturb nothing outside the target region. */
  lemma {:induction false} AttemptsConfined(s0: seq<byte>, before: seq<Entry>, after: seq<Entry>,
                                            op: byte, ps: seq<byte>, buf: seq<byte>)
    requires Attempts(before, after, op, ps, buf) && |ps| == 8
    requires 0 <= StartOf(ps) && StartOf(ps) + |buf| <= |s0|
    ensures SameOutside(StoreOf(s0, before), StoreOf(s0, after), StartOf(ps), |buf|)
    ensures op == READ_DATA ==> StoreOf(s0, after) == StoreOf(s0, before)
    decreases |after|
  {
    if |after| == |before| {
      assert after == before;
    } else {
      var front := after[..|after| - 1];
      AttemptsConfined(s0, before, front, op, ps, buf);
      var s := StoreOf(s0, front);
      var e := after[|after| - 1];
      assert StoreOf(s0, after) == Stored(s, e);
      if IsTransfer(e, WRITE_DATA) && op == WRITE_DATA {
        var d := e.sent[..Min(|e.sent|, SpanOf(ps))];
        SpliceInside(StoreOf(s0, before), s, StartOf(ps), |buf|, d);
      }
    }
  }

  lemma SpliceInside(x: seq<byte>, y: seq<byte>, at: nat, n: nat, d: seq<byte>)
    requires SameOutside(x, y, at, n) && |d| <= n
    ensures SameOutside(x, Splice(y, at, d), at, n)
  {
    var z := Splice(y, at, d);
    assert z[..at] == y[..at];
    assert z[at + n..] == y[at + n..];
  }

  lemma SpliceOver(x: seq<byte>, y: seq<byte>, at: nat, d: seq<byte>)
    requires SameOutside(x, y, at, |d|)
    ensures Splice(y, at, d) == Splice(x, at, d)
  {
  }

  /** A successful write, after any number of failed attempts, leaves the linear disk with `buf`
      at `at` and nothing else changed. */
  lemma WriteLands(s0: seq<byte>, before: seq<Entry>, tries: seq<Entry>, ps: seq<byte>, buf: seq<byte>)
    requires Attempts(before, tries, WRITE_DATA, ps, buf) && |ps| == 8
    requires 0 <= StartOf(ps) && StartOf(ps) + |buf| <= |s0| && SpanOf(ps) == |buf|
    ensures StoreOf(s0, tries + [Cmd(WRITE_DATA, ps, buf, [])])
            == Splice(StoreOf(s0, before), StartOf(ps), buf)
  {
    AttemptsConfined(s0, before, tries, WRITE_DATA, ps, buf);
    var e := Cmd(WRITE_DATA, ps, buf, []);
    StoreAppend(s0, tries, e);
    assert e.sent[..Min(|e.sent|, SpanOf(ps))] == buf;
    SpliceOver(StoreOf(s0, before), StoreOf(s0, tries), StartOf(ps), buf);
  }

  /** A successful read from a faithful drive returns the linear disk's bytes. */
  lemma ReadSees(s0: seq<byte>, before: seq<Entry>, tries: seq<Entry>, ps: seq<byte>,
                 buf: seq<byte>, status: seq<byte>)
    requires Attempts(before, tries, READ_DATA, ps, []) && |ps| == 8
    requires 0 <= StartOf(ps) && StartOf(ps) + |buf| <= |s0| && SpanOf(ps) == |buf|
    requires Faithful(s0, tries + [Cmd(READ_DATA, ps, [], buf + status)])
    ensures buf == StoreOf(s0, before)[StartOf(ps)..StartOf(ps) + |buf|]
    ensures StoreOf(s0, tries + [Cmd(READ_DATA, ps, [], buf + status)]) == StoreOf(s0, before)
  {
    var e := Cmd(READ_DATA, ps, [], buf + status);
    var script := tries + [e];
    AttemptsConfined(s0, before, tries, READ_DATA, ps, []);
    StoreAppend(s0, tries, e);
    assert script[..|tries|] == tries && script[|tries|] == e;
    assert Truthful(StoreOf(s0, script[..|tries|]), script[|tries|]);
    assert e.got[..Min(|e.got|, SpanOf(ps))] == buf;
  }

  lemma FaithfulPrefix(s0: seq<byte>, before: seq<Entry>, after: seq<Entry>)
    requires before <= after && Faithful(s0, after)
    ensures Faithful(s0, before)
  {
    forall i | 0 <= i < |before|
      ensures Truthful(StoreOf(s0, before[..i]), before[i])
    {
      assert before[..i] == after[..i] && before[i] == after[i];
    }
  }
}
