/** Track splitting (kernel/src/floppy/floppyfs.rs): reads and writes of any length over a driver
    that transfers within one track, measured against a linear disk. */
module FloppyFs {
  import opened Words
  import opened FloppyBus
  import opened Geometry
  import opened Floppy

  const TRACK_BYTES: nat := 9216
  const DISK_BYTES: nat := 1474560

  /** The bytes transferred before the first track boundary, in wrapping u64 arithmetic: for a
      start beyond sector 18 the subtraction underflows and the whole buffer goes in one piece. */
  function FirstPart(block: nat, len: nat): (first: nat)
    ensures first <= len
    ensures block <= 18 ==> first == Min((18 - block) * 512, len)
    ensures 18 < block < 9216 && len < MOD64 / 2 ==> first == len
  {
    Min((18 - block) % MOD64 * SECTOR_SIZE % MOD64, len)
  }

  /** The first sector after the first part, again in wrapping arithmetic. */
  function NextTrack(block: nat): (next: nat)
    requires block < MOD64
    ensures next == 18
  {
    (block + (18 - block) % MOD64) % MOD64
  }

  /** The pieces of an in-range read are all accepted: none crosses a track. */
  lemma PiecesAccepted(block: nat, len: nat, idx: nat)
    requires InRange(block, len)
    ensures var first := FirstPart(block, len);
            first > 0 ==> !Refused(block, first)
    ensures var lo := FirstPart(block, len) + idx * TRACK_BYTES;
            lo < len ==> !Refused(18 + 18 * idx, Min(TRACK_BYTES, len - lo))
  {
    var sects := len / SECTOR_SIZE;
    assert len == sects * SECTOR_SIZE;
    var first := FirstPart(block, len);
    var firstSects := Min(18 - block, sects);
    assert first == firstSects * SECTOR_SIZE;
    if first > 0 {
      RequestWithinTrack(block, firstSects);
    }
    var rest := sects - firstSects - 18 * idx;
    if rest > 0 {
      RequestWithinTrack(18 + 18 * idx, Min(18, rest));
    }
  }

  lemma RequestWithinTrack(ptr: nat, n: nat)
    requires 1 <= n <= 18 && ptr + n <= DISK_SECTORS && ptr / SECTORS == (ptr + n - 1) / SECTORS
    ensures !Refused(ptr, n * SECTOR_SIZE)
  {
    AcceptIff(ptr, n);
    assert n * SECTOR_SIZE / SECTOR_SIZE % MOD16 == n && ptr % MOD16 == ptr;
  }

  /** A request the driver carried out, as a stretch of the linear disk. */
  lemma Carried(drive: bool, ptr: nat, len: nat)
    requires ptr < 9216 && 0 < len <= DISK_BYTES && len % SECTOR_SIZE == 0 && !Refused(ptr, len)
    ensures var ps := RequestParams(drive, ptr, len);
            StartOf(ps) == SECTOR_SIZE * ptr && SpanOf(ps) == len && Addressed(ps, drive)
    ensures SECTOR_SIZE * ptr + len <= DISK_BYTES && len <= TRACK_BYTES
  {
    var n := len / SECTOR_SIZE;
    assert n % MOD16 == n && ptr % MOD16 == ptr;
    OneTrackOnly(ptr, n);
    AcceptIff(ptr, n);
    DenotesIff(drive, ptr, n);
  }

  lemma ReadPiece(s0: seq<byte>, before: seq<Entry>, after: seq<Entry>, drive: bool, ptr: nat, data: seq<byte>)
    requires |s0| == DISK_BYTES && ptr < 9216 && 0 < |data| <= DISK_BYTES
    requires |data| % SECTOR_SIZE == 0 && !Refused(ptr, |data|)
    requires ReadComplete(before, after, RequestParams(drive, ptr, |data|), data)
    ensures before <= after && StoreOf(s0, after) == StoreOf(s0, before)
    ensures SECTOR_SIZE * ptr + |data| <= DISK_BYTES
    ensures Faithful(s0, after) ==>
      data == StoreOf(s0, before)[SECTOR_SIZE * ptr..SECTOR_SIZE * ptr + |data|]
  {
    Carried(drive, ptr, |data|);
    var ps := RequestParams(drive, ptr, |data|);
    var tries, last := after[..|after| - 1], after[|after| - 1];
    var status := last.got[|data|..];
    assert last.got == data + status;
    assert after == tries + [Cmd(READ_DATA, ps, [], data + status)];
    AttemptsConfined(s0, before, tries, READ_DATA, ps, []);
    StoreAppend(s0, tries, last);
    if Faithful(s0, after) {
      ReadSees(s0, before, tries, ps, data, status);
    }
  }

  lemma WritePiece(s0: seq<byte>, before: seq<Entry>, after: seq<Entry>, drive: bool, ptr: nat, data: seq<byte>)
    requires |s0| == DISK_BYTES && ptr < 9216 && 0 < |data| <= DISK_BYTES
    requires |data| % SECTOR_SIZE == 0 && !Refused(ptr, |data|)
    requires WriteComplete(before, after, RequestParams(drive, ptr, |data|), data)
    ensures before <= after && SECTOR_SIZE * ptr + |data| <= DISK_BYTES
    ensures StoreOf(s0, after) == Splice(StoreOf(s0, before), SECTOR_SIZE * ptr, data)
  {
    Carried(drive, ptr, |data|);
    var ps := RequestParams(drive, ptr, |data|);
    var tries := after[..|after| - 1];
    assert after == tries + [Cmd(WRITE_DATA, ps, data, [])];
    WriteLands(s0, before, tries, ps, data);
  }

  /** The sectors from the third track on. */
  const TAIL: nat := 36 * 512

  ghost function TailOf(s0: seq<byte>, script: seq<Entry>): seq<byte>
    requires |s0| == DISK_BYTES
  {
    StoreOf(s0, script)[TAIL..]
  }

  /** Later pieces of a write step by bytes instead of sectors. Up to the eighth they all land on
      the track at sector 18; the ninth is refused. */
  lemma StrayPiece(s0: seq<byte>, before: seq<Entry>, after: seq<Entry>, drive: bool, idx: nat, data: seq<byte>)
    requires |s0| == DISK_BYTES && 0 < |data| <= TRACK_BYTES && |data| % SECTOR_SIZE == 0 && idx <= 8
    requires !Refused(18 + idx * TRACK_BYTES, |data|)
    requires WriteComplete(before, after, RequestParams(drive, 18 + idx * TRACK_BYTES, |data|), data)
    ensures before <= after && idx < 8
    ensures TailOf(s0, after) == TailOf(s0, before)
  {
    var ps := RequestParams(drive, 18 + idx * TRACK_BYTES, |data|);
    StrayAddress(drive, idx, |data|);
    assert after == after[..|after| - 1] + [after[|after| - 1]];
    AttemptsConfined(s0, before, after, WRITE_DATA, ps, data);
    var x, y := StoreOf(s0, before), StoreOf(s0, after);
    var at := StartOf(ps) + |data|;
    assert x[TAIL..] == x[at..][TAIL - at..] && y[TAIL..] == y[at..][TAIL - at..];
  }

  lemma StrayAddress(drive: bool, idx: nat, len: nat)
    requires 0 < len <= TRACK_BYTES && len % SECTOR_SIZE == 0 && idx <= 8
    requires !Refused(18 + idx * TRACK_BYTES, len)
    ensures idx < 8 && StartOf(RequestParams(drive, 18 + idx * TRACK_BYTES, len)) == 18 * SECTOR_SIZE
  {
    var n := len / SECTOR_SIZE;
    assert n % MOD16 == n;
    if idx == 8 {
      NinthRefused(n);
    } else {
      StrayStart(drive, idx, n);
    }
  }

  lemma StrayStart(drive: bool, idx: nat, n: nat)
    requires idx < 8
    ensures StartOf(TransferParams(drive, (18 + idx * TRACK_BYTES) % MOD16, n)) == 18 * SECTOR_SIZE
  {
    var ptr := 18 + idx * TRACK_BYTES;
    assert ptr % MOD16 == ptr;
    ParamsMean(drive, ptr, n);
    assert ptr % 9216 == 18;
  }

  lemma NinthRefused(n: nat)
    requires 1 <= n <= 18
    ensures Check((18 + 8 * TRACK_BYTES) % MOD16, n) == EndOfDrive
  {
    assert (18 + 8 * TRACK_BYTES) % MOD16 == 8210;
    assert EndLba(8210, n) == 8210 + n - 1;
  }

  lemma SpliceJoin(s: seq<byte>, at: nat, x: seq<byte>, y: seq<byte>)
    requires at + |x| + |y| <= |s|
    ensures Splice(Splice(s, at, x), at + |x|, y) == Splice(s, at, x + y)
  {
  }

  lemma SliceJoin(s: seq<byte>, a: nat, b: nat, c: nat)
    requires a <= b <= c <= |s|
    ensures s[a..b] + s[b..c] == s[a..c]
  {
  }

  /** `data`, the bytes read so far, is the linear disk from `block` on. */
  ghost predicate ReadSoFar(s0: seq<byte>, script0: seq<Entry>, script: seq<Entry>, block: nat, data: seq<byte>) {
    && script0 <= script && StoreOf(s0, script) == StoreOf(s0, script0)
    && (data != [] ==> SECTOR_SIZE * block + |data| <= |s0|)
    && (data != [] && Faithful(s0, script) ==>
          data == StoreOf(s0, script0)[SECTOR_SIZE * block..SECTOR_SIZE * block + |data|])
  }

  lemma ReadMore(s0: seq<byte>, script0: seq<Entry>, before: seq<Entry>, after: seq<Entry>,
                 drive: bool, block: nat, done: seq<byte>, ptr: nat, piece: seq<byte>)
    requires |s0| == DISK_BYTES && ReadSoFar(s0, script0, before, block, done)
    requires SECTOR_SIZE * ptr == SECTOR_SIZE * block + |done|
    requires ptr < 9216 && 0 < |piece| <= DISK_BYTES
    requires |piece| % SECTOR_SIZE == 0 && !Refused(ptr, |piece|)
    requires ReadComplete(before, after, RequestParams(drive, ptr, |piece|), piece)
    ensures ReadSoFar(s0, script0, after, block, done + piece)
  {
    ReadPiece(s0, before, after, drive, ptr, piece);
    if Faithful(s0, after) {
      FaithfulPrefix(s0, before, after);
      JoinRead(StoreOf(s0, script0), SECTOR_SIZE * block, done, piece);
    }
  }

  lemma JoinRead(s: seq<byte>, at: nat, done: seq<byte>, piece: seq<byte>)
    requires at + |done| + |piece| <= |s|
    requires (done != [] ==> done == s[at..at + |done|]) && piece == s[at + |done|..at + |done| + |piece|]
    ensures done + piece == s[at..at + |done + piece|]
  {
    SliceJoin(s, at, at + |done|, at + |done| + |piece|);
  }

  /** `buf[..hi]` after a piece was read behind `head`. */
  lemma ReadJoin(buf: array<byte>, lo: nat, hi: nat)
    requires lo <= hi <= buf.Length
    ensures buf[..hi] == buf[..lo] + buf[lo..hi]
  {
  }

  /** The facts about a piece at `ptr` that continue a read of `block`. */
  ghost predicate Continues(ptr: nat, block: nat, lo: nat, hi: nat) {
    ptr < 9216 && lo <= hi && hi - lo <= DISK_BYTES && SECTOR_SIZE * ptr == SECTOR_SIZE * block + lo
  }

  /** Piece `idx` of a read that is in range, -1 being the one before the first track boundary. */
  ghost predicate PieceOf(block: nat, len: nat, idx: int, ptr: nat, lo: nat, hi: nat) {
    && InRange(block, len) && lo <= hi
    && if idx < 0 then ptr == block && lo == 0 && hi == FirstPart(block, len)
       else ptr == 18 + 18 * idx && lo == FirstPart(block, len) + idx * TRACK_BYTES && lo < len
            && hi == Min(lo + TRACK_BYTES, len)
  }

  lemma PieceAccepted(block: nat, len: nat, idx: int, ptr: nat, lo: nat, hi: nat)
    requires PieceOf(block, len, idx, ptr, lo, hi) && lo < hi
    ensures !Refused(ptr, hi - lo)
  {
    PiecesAccepted(block, len, if idx < 0 then 0 else idx);
  }

  lemma PieceSectors(block: nat, len: nat, idx: int, ptr: nat, lo: nat, hi: nat)
    requires PieceOf(block, len, idx, ptr, lo, hi)
    ensures (hi - lo) % SECTOR_SIZE == 0
  {
    var sects := len / SECTOR_SIZE;
    assert len == sects * SECTOR_SIZE;
    var first := Min(18 - block, sects);
    assert FirstPart(block, len) == first * SECTOR_SIZE;
    var n := if idx < 0 then first else Min(18, sects - first - 18 * idx);
    assert hi - lo == n * SECTOR_SIZE;
    Multiple(n);
  }

  lemma Multiple(n: nat)
    ensures n * SECTOR_SIZE % SECTOR_SIZE == 0
  {
  }

  // ----- the pieces issued

  /** FLOPPY_INIT and the controller between two pieces. */
  datatype Moment = Moment(enabled: bool, view: View)

  /** A call of `disk::read` or `disk::write` for bytes [lo, hi) of the buffer, and its answer. */
  datatype Piece = Piece(ptr: nat, lo: nat, hi: nat, answer: Outcome<FloppyError>, before: Moment, after: Moment)

  ghost function Now(fdc: Fdc): Moment
    reads fdc
  {
    Moment(fdc.floppyInit, fdc.view)
  }

  /** The answer is the one the driver gives to this request. */
  ghost predicate Answered(p: Piece) {
    && p.before.view.View? && p.after.view.View? && p.lo <= p.hi
    && Explained(p.before.enabled, p.before.view, p.after.view, p.ptr, p.hi - p.lo, p.answer)
  }

  function EndOf(pieces: seq<Piece>): nat {
    if pieces == [] then 0 else pieces[|pieces| - 1].hi
  }

  ghost function EndsAt(pieces: seq<Piece>, start: Moment): Moment {
    if pieces == [] then start else pieces[|pieces| - 1].after
  }

  /** Piece `i` begins where the one before ended, in the buffer and in time, and that one passed. */
  ghost predicate Follows(pieces: seq<Piece>, start: Moment, i: nat)
    requires i < |pieces|
  {
    && Answered(pieces[i]) && pieces[i].lo == EndOf(pieces[..i]) && pieces[i].before == EndsAt(pieces[..i], start)
    && (i > 0 ==> pieces[i - 1].answer.Pass?)
  }

  /** The pieces tile a prefix of the buffer without gap or overlap, one after the other, and all but the
      last passed. */
  ghost predicate Tiles(pieces: seq<Piece>, start: Moment) {
    forall i: nat {:trigger Follows(pieces, start, i)} | i < |pieces| :: Follows(pieces, start, i)
  }

  lemma TilesMore(pieces: seq<Piece>, start: Moment, p: Piece)
    requires Tiles(pieces, start) && Answered(p) && p.lo == EndOf(pieces) && p.before == EndsAt(pieces, start)
    requires pieces != [] ==> pieces[|pieces| - 1].answer.Pass?
    ensures Tiles(pieces + [p], start)
  {
    var more := pieces + [p];
    forall i: nat | i < |more|
      ensures Follows(more, start, i)
    {
      if i < |pieces| {
        assert Follows(pieces, start, i);
        assert more[..i] == pieces[..i] && (i > 0 ==> more[i - 1] == pieces[i - 1]);
      } else {
        assert more[..i] == pieces;
      }
    }
  }

  /** The whole run of a wrapper: its answer is that of the last piece, and it passes only when the pieces
      tile the whole buffer. */
  ghost predicate Ran(pieces: seq<Piece>, start: Moment, end: Moment, len: nat, r: Outcome<FloppyError>) {
    && pieces != [] && Tiles(pieces, start) && EndsAt(pieces, start) == end
    && r == pieces[|pieces| - 1].answer && (r.Pass? ==> EndOf(pieces) == len)
  }

  /** Part of the way: `idx` pieces after the first, all passed, up to byte `lo`. */
  ghost predicate Going(pieces: seq<Piece>, start: Moment, now: Moment, lo: nat, idx: nat, block: nat, stride: nat, len: nat) {
    && Tiles(pieces, start) && |pieces| == idx + 1 && EndOf(pieces) == lo && EndsAt(pieces, start) == now
    && pieces[idx].answer.Pass? && GoesOn(start, now) && Strides(pieces, block, stride, len)
  }

  /** The pieces after the first: from sector 18 on in steps of `stride` sectors, each with a whole track of
      the buffer or what is left of it. */
  ghost predicate Strides(pieces: seq<Piece>, block: nat, stride: nat, len: nat) {
    forall i: nat {:trigger StrideAt(pieces[i], i, block, stride, len)} | i < |pieces| ::
      StrideAt(pieces[i], i, block, stride, len)
  }

  ghost predicate StrideAt(p: Piece, i: nat, block: nat, stride: nat, len: nat) {
    if i == 0 then p.ptr == block
    else p.ptr == 18 + stride * (i - 1) && p.lo < len && p.hi == Min(p.lo + TRACK_BYTES, len)
  }

  lemma GoingMore(pieces: seq<Piece>, start: Moment, now: Moment, lo: nat, idx: nat, block: nat, stride: nat, len: nat, p: Piece)
    requires Going(pieces, start, now, lo, idx, block, stride, len) && Tiles(pieces + [p], start)
    requires StrideAt(p, idx + 1, block, stride, len) && p.before == now
    ensures Strides(pieces + [p], block, stride, len)
    ensures p.answer.Pass? && GoesOn(p.before, p.after) ==>
              Going(pieces + [p], start, p.after, p.hi, idx + 1, block, stride, len)
  {
    var more := pieces + [p];
    forall i: nat | i < |more|
      ensures StrideAt(more[i], i, block, stride, len)
    {
      if i <= idx {
        assert StrideAt(pieces[i], i, block, stride, len);
      }
    }
  }

  /** A first piece that passed. */
  lemma GoingFirst(p0: Piece, start: Moment, now: Moment, stride: nat, len: nat)
    requires Tiles([p0], start) && p0.after == now && p0.answer.Pass? && GoesOn(start, now)
    ensures Going([p0], start, now, p0.hi, 0, p0.ptr, stride, len)
  {
  }

  /** A piece of a request in range can only fail as Blamed says. */
  lemma PieceBlamed(block: nat, len: nat, idx: int, p: Piece)
    requires PieceOf(block, len, idx, p.ptr, p.lo, p.hi) && Answered(p) && p.answer.Fail?
    requires p.before.view.faults <= p.after.view.faults && (p.after.enabled ==> p.before.enabled)
    ensures Blamed(p.before, p.after, p.answer)
  {
    PieceSectors(block, len, idx, p.ptr, p.lo, p.hi);
    if p.lo < p.hi {
      PieceAccepted(block, len, idx, p.ptr, p.lo, p.hi);
    }
  }

  /** While pieces pass, an enabled driver stays enabled unless the hardware is at fault. */
  ghost predicate GoesOn(start: Moment, now: Moment) {
    && start.view.View? && now.view.View? && start.view.faults <= now.view.faults
    && (now.enabled ==> start.enabled) && (start.enabled && !now.enabled ==> now.view.faults > start.view.faults)
    && (!start.enabled ==> now == start)
  }

  /** Why a request that the driver accepts in every piece failed. */
  ghost predicate Blamed(start: Moment, end: Moment, r: Outcome<FloppyError>) {
    && start.view.View? && end.view.View? && start.view.faults <= end.view.faults
    && if start.enabled then end.view.faults > start.view.faults || (r.Fail? && StatusSays(end.view.script, r.error))
       else r == Fail(ReadOrWrite(ControllerUninit)) && end == start
  }

  lemma BlamedLater(start: Moment, now: Moment, end: Moment, r: Outcome<FloppyError>)
    requires GoesOn(start, now) && Blamed(now, end, r)
    ensures Blamed(start, end, r)
  {
  }

  /** One call of `disk::read` from the splitting loop. */
  method ReadPart(fdc: Fdc, ptr: nat, buf: array<byte>, lo: nat, hi: nat, ghost pieces: seq<Piece>, ghost start: Moment,
                  ghost s0: seq<byte>, ghost script0: seq<Entry>, ghost block: nat, ghost idx: int)
    returns (r: Outcome<FloppyError>, ghost p: Piece)
    requires fdc.Ready() && lo <= hi <= buf.Length && |s0| == DISK_BYTES
    requires Tiles(pieces, start) && EndOf(pieces) == lo && EndsAt(pieces, start) == Now(fdc)
    requires pieces != [] ==> pieces[|pieces| - 1].answer.Pass?
    modifies fdc, buf
    ensures fdc.Ready() && (fdc.floppyInit ==> old(fdc.floppyInit))
    ensures p == Piece(ptr, lo, hi, r, old(Now(fdc)), Now(fdc)) && Tiles(pieces + [p], start)
    ensures r.Pass? ==> GoesOn(old(Now(fdc)), Now(fdc))
    ensures r.Fail? && PieceOf(block, buf.Length, idx, ptr, lo, hi) ==> Blamed(old(Now(fdc)), Now(fdc), r)
    ensures r.Pass? && Continues(ptr, block, lo, hi) && old(ReadSoFar(s0, script0, fdc.view.script, block, buf[..lo]))
            ==> ReadSoFar(s0, script0, fdc.view.script, block, buf[..hi])
    ensures r.Fail? && PieceOf(block, buf.Length, idx, ptr, lo, hi) ==> NotAddress(r.error)
  {
    ghost var before, head, log := fdc.view.script, buf[..lo], Log(0, Done, false);
    r, log := fdc.Read(ptr, buf, lo, hi);
    ReadJoin(buf, lo, hi);
    p := Piece(ptr, lo, hi, r, old(Now(fdc)), Now(fdc));
    TilesMore(pieces, start, p);
    if r.Fail? && PieceOf(block, buf.Length, idx, ptr, lo, hi) {
      PieceAccepted(block, buf.Length, idx, ptr, lo, hi);
      PieceBlamed(block, buf.Length, idx, p);
    }
    if r.Pass? && lo < hi && Continues(ptr, block, lo, hi) && ReadSoFar(s0, script0, before, block, head) {
      ReadMore(s0, script0, before, fdc.view.script, fdc.drive, block, head, ptr, buf[lo..hi]);
    }
  }

  /** A request that lies on the disk and starts on its first track or at the start of the second. */
  predicate InRange(block: nat, len: nat) {
    block <= 18 && len % SECTOR_SIZE == 0 && block * SECTOR_SIZE + len <= DISK_BYTES
  }

  /** A start that the driver can address. */
  predicate Tracked(block: nat, len: nat) {
    block <= 18 || (block < 9216 && len <= DISK_BYTES)
  }

  /** `floppyfs::read`. On a drive that returns what it stores, success means the buffer holds the
      linear disk's bytes from `block` on, for every start the driver can address. */
  method Read(fdc: Fdc, block: nat, buf: array<byte>, ghost s0: seq<byte>)
    returns (r: Outcome<FloppyError>, ghost pieces: seq<Piece>)
    requires fdc.Ready() && block < MOD64 && buf.Length < MOD64 / 2 && |s0| == DISK_BYTES
    modifies fdc, buf
    ensures fdc.Ready() && (fdc.floppyInit ==> old(fdc.floppyInit))
    ensures r.Pass? && Tracked(block, buf.Length) ==>
      ReadSoFar(s0, old(fdc.view.script), fdc.view.script, block, buf[..])
    ensures r.Fail? && InRange(block, buf.Length) ==> NotAddress(r.error) && Blamed(old(Now(fdc)), Now(fdc), r)
    ensures Ran(pieces, old(Now(fdc)), Now(fdc), buf.Length, r) && (r.Pass? ==> GoesOn(old(Now(fdc)), Now(fdc)))
    ensures Strides(pieces, block, 18, buf.Length)
  {
    var len := buf.Length;
    ghost var start, p := Now(fdc), Piece(0, 0, 0, Pass, Now(fdc), Now(fdc));
    var first := FirstPart(block, len);
    ghost var script0 := fdc.view.script;
    assert buf[..0] == [];
    r, p := ReadPart(fdc, block, buf, 0, first, [], start, s0, script0, block, -1);
    pieces := [p];
    assert [] + [p] == [p];
    if r.Fail? { return; }
    r, pieces := ReadRest(fdc, block, buf, first, NextTrack(block), p, start, s0, script0);
  }

  /** The loop over the pieces after the first. */
  method ReadRest(fdc: Fdc, ghost block: nat, buf: array<byte>, first: nat, next: nat, ghost p0: Piece, ghost start: Moment,
                  ghost s0: seq<byte>, ghost script0: seq<Entry>)
    returns (r: Outcome<FloppyError>, ghost pieces: seq<Piece>)
    requires fdc.Ready() && first <= buf.Length < MOD64 / 2 && |s0| == DISK_BYTES && next == 18
    requires first == FirstPart(block, buf.Length)
    requires Tiles([p0], start) && p0.ptr == block && p0.hi == first && p0.after == Now(fdc) && p0.answer.Pass?
    requires GoesOn(start, Now(fdc)) && (Tracked(block, buf.Length) ==> ReadSoFar(s0, script0, fdc.view.script, block, buf[..first]))
    modifies fdc, buf
    ensures fdc.Ready() && (fdc.floppyInit ==> old(fdc.floppyInit))
    ensures r.Pass? && Tracked(block, buf.Length) ==> ReadSoFar(s0, script0, fdc.view.script, block, buf[..])
    ensures r.Fail? && InRange(block, buf.Length) ==> NotAddress(r.error) && Blamed(start, Now(fdc), r)
    ensures Ran(pieces, start, Now(fdc), buf.Length, r) && (r.Pass? ==> GoesOn(start, Now(fdc)))
    ensures Strides(pieces, block, 18, buf.Length)
  {
    var len := buf.Length;
    ghost var p, tracked := p0, Tracked(block, len);
    pieces := [p0];
    GoingFirst(p0, start, Now(fdc), 18, len);
    var lo, idx := first, 0;
    while lo < len
      invariant lo <= len && fdc.Ready() && (fdc.floppyInit ==> old(fdc.floppyInit))
      invariant lo < len ==> lo == first + idx * TRACK_BYTES
      invariant Going(pieces, start, Now(fdc), lo, idx, block, 18, len)
      invariant tracked ==> ReadSoFar(s0, script0, fdc.view.script, block, buf[..lo])
    {
      var hi := Min(lo + TRACK_BYTES, len);
      var ptr := (next + idx * 18) % MOD64;
      assert ptr == 18 + idx * 18;
      ghost var now := Now(fdc);
      r, p := ReadPart(fdc, ptr, buf, lo, hi, pieces, start, s0, script0, block, idx);
      GoingMore(pieces, start, now, lo, idx, block, 18, len, p);
      pieces := pieces + [p];
      if r.Fail? {
        if InRange(block, len) {
          BlamedLater(start, now, Now(fdc), r);
        }
        return;
      }
      lo, idx := hi, idx + 1;
    }
    assert buf[..len] == buf[..];
    r := Pass;
  }

  /** `data`, the bytes written so far, is on the linear disk from `block` on, and nothing else
      has changed. */
  ghost predicate WrittenSoFar(s0: seq<byte>, script0: seq<Entry>, script: seq<Entry>, block: nat, data: seq<byte>) {
    && script0 <= script
    && (if data == [] then StoreOf(s0, script) == StoreOf(s0, script0)
        else SECTOR_SIZE * block + |data| <= |s0|
             && StoreOf(s0, script) == Splice(StoreOf(s0, script0), SECTOR_SIZE * block, data))
  }

  lemma WriteMore(s0: seq<byte>, script0: seq<Entry>, before: seq<Entry>, after: seq<Entry>,
                  drive: bool, block: nat, done: seq<byte>, ptr: nat, piece: seq<byte>)
    requires |s0| == DISK_BYTES && WrittenSoFar(s0, script0, before, block, done)
    requires SECTOR_SIZE * ptr == SECTOR_SIZE * block + |done|
    requires ptr < 9216 && 0 < |piece| <= DISK_BYTES
    requires |piece| % SECTOR_SIZE == 0 && !Refused(ptr, |piece|)
    requires WriteComplete(before, after, RequestParams(drive, ptr, |piece|), piece)
    ensures WrittenSoFar(s0, script0, after, block, done + piece)
  {
    WritePiece(s0, before, after, drive, ptr, piece);
    SpliceJoin(StoreOf(s0, script0), SECTOR_SIZE * block, done, piece);
    if done == [] {
      assert done + piece == piece;
    }
  }

  /** What a piece of a write that passed did: nothing if it is empty, otherwise the complete transfer. */
  ghost predicate Wrote(p: Piece, drive: bool, data: seq<byte>) {
    && p.before.view.View? && p.after.view.View? && p.lo <= p.hi <= |data|
    && (p.answer.Pass? && p.lo == p.hi ==> p.after.view == p.before.view)
    && (p.answer.Pass? && p.lo < p.hi ==>
          && (p.hi - p.lo) % SECTOR_SIZE == 0 && !Refused(p.ptr, p.hi - p.lo)
          && WriteComplete(p.before.view.script, p.after.view.script, RequestParams(drive, p.ptr, p.hi - p.lo), data[p.lo..p.hi]))
  }

  ghost predicate AllWrote(pieces: seq<Piece>, drive: bool, data: seq<byte>) {
    forall i: nat {:trigger Wrote(pieces[i], drive, data)} | i < |pieces| :: Wrote(pieces[i], drive, data)
  }

  /** One call of `disk::write` from the splitting loop. */
  method WritePart(fdc: Fdc, ptr: nat, data: seq<byte>, lo: nat, hi: nat, ghost pieces: seq<Piece>, ghost start: Moment,
                   ghost block: nat, ghost idx: int)
    returns (r: Outcome<FloppyError>, ghost p: Piece)
    requires fdc.Ready() && lo <= hi <= |data|
    requires Tiles(pieces, start) && EndOf(pieces) == lo && EndsAt(pieces, start) == Now(fdc)
    requires pieces != [] ==> pieces[|pieces| - 1].answer.Pass?
    modifies fdc
    ensures fdc.Ready() && (fdc.floppyInit ==> old(fdc.floppyInit))
    ensures p == Piece(ptr, lo, hi, r, old(Now(fdc)), Now(fdc)) && Tiles(pieces + [p], start)
    ensures Wrote(p, fdc.drive, data) && (r.Pass? ==> GoesOn(old(Now(fdc)), Now(fdc)))
    ensures r.Fail? && PieceOf(block, |data|, idx, ptr, lo, hi) ==>
      NotAddress(r.error) && Blamed(old(Now(fdc)), Now(fdc), r)
  {
    ghost var log := Log(0, Done, false);
    r, log := fdc.Write(ptr, data[lo..hi]);
    p := Piece(ptr, lo, hi, r, old(Now(fdc)), Now(fdc));
    TilesMore(pieces, start, p);
    if r.Fail? && PieceOf(block, |data|, idx, ptr, lo, hi) {
      PieceAccepted(block, |data|, idx, ptr, lo, hi);
      PieceBlamed(block, |data|, idx, p);
    }
  }

  /** A request that ends within the first two tracks. */
  predicate WithinTwo(block: nat, len: nat) {
    InRange(block, len) && SECTOR_SIZE * block + len <= TAIL
  }

  /** What follows the first piece of a request within two tracks is a single piece. */
  lemma SecondPiece(block: nat, len: nat, first: nat)
    requires WithinTwo(block, len) && first == FirstPart(block, len) && first < len
    ensures len <= first + TRACK_BYTES && PieceOf(block, len, 0, 18, first, Min(first + TRACK_BYTES, len))
  {
  }

  /** The loop over the pieces after the first, which steps by bytes where it should step by sectors. */
  method WriteRest(fdc: Fdc, data: seq<byte>, first: nat, next: nat, ghost p0: Piece, ghost start: Moment, ghost block: nat)
    returns (r: Outcome<FloppyError>, ghost pieces: seq<Piece>)
    requires fdc.Ready() && first <= |data| < MOD64 / 2 && next == 18
    requires Tiles([p0], start) && p0.ptr == block && p0.hi == first && p0.after == Now(fdc) && p0.answer.Pass?
    requires GoesOn(start, Now(fdc)) && AllWrote([p0], fdc.drive, data)
    modifies fdc
    ensures fdc.Ready() && (fdc.floppyInit ==> old(fdc.floppyInit))
    ensures Ran(pieces, start, Now(fdc), |data|, r) && (r.Pass? ==> GoesOn(start, Now(fdc)))
    ensures Strides(pieces, block, 9216, |data|) && AllWrote(pieces, fdc.drive, data) && pieces[0] == p0
    ensures r.Fail? && WithinTwo(block, |data|) && first == FirstPart(block, |data|) ==>
      NotAddress(r.error) && Blamed(start, Now(fdc), r)
  {
    var len := |data|;
    var lo, idx := first, 0;
    pieces := [p0];
    GoingFirst(p0, start, Now(fdc), 9216, len);
    ghost var within := WithinTwo(block, len) && first == FirstPart(block, len);
    if within && first < len {
      SecondPiece(block, len, first);
    }
    while lo < len
      invariant lo <= len && fdc.Ready() && (fdc.floppyInit ==> old(fdc.floppyInit))
      invariant Going(pieces, start, Now(fdc), lo, idx, block, 9216, len)
      invariant AllWrote(pieces, fdc.drive, data) && pieces[0] == p0
      invariant lo < len ==> lo == first + idx * TRACK_BYTES
    {
      var hi := Min(lo + TRACK_BYTES, len);
      var ptr := (next + idx * TRACK_BYTES) % MOD64;
      r, pieces := WriteNext(fdc, ptr, data, lo, hi, pieces, start, block, idx);
      if r.Fail? { return; }
      lo, idx := hi, idx + 1;
    }
    r := Pass;
  }

  /** A piece after the first and `idx` others, all of which passed. */
  method WriteNext(fdc: Fdc, ptr: nat, data: seq<byte>, lo: nat, hi: nat, ghost pieces: seq<Piece>, ghost start: Moment,
                   ghost block: nat, ghost idx: nat)
    returns (r: Outcome<FloppyError>, ghost more: seq<Piece>)
    requires fdc.Ready() && lo < |data| && hi == Min(lo + TRACK_BYTES, |data|) && ptr == 18 + 9216 * idx
    requires Going(pieces, start, Now(fdc), lo, idx, block, 9216, |data|) && AllWrote(pieces, fdc.drive, data)
    modifies fdc
    ensures fdc.Ready() && (fdc.floppyInit ==> old(fdc.floppyInit))
    ensures pieces < more && Strides(more, block, 9216, |data|) && AllWrote(more, fdc.drive, data)
    ensures r.Pass? ==> Going(more, start, Now(fdc), hi, idx + 1, block, 9216, |data|)
    ensures r.Fail? ==> Ran(more, start, Now(fdc), |data|, r)
    ensures r.Fail? && PieceOf(block, |data|, idx, ptr, lo, hi) ==> NotAddress(r.error) && Blamed(start, Now(fdc), r)
  {
    ghost var now := Now(fdc);
    ghost var p;
    r, p := WritePart(fdc, ptr, data, lo, hi, pieces, start, block, idx);
    GoingMore(pieces, start, now, lo, idx, block, 9216, |data|, p);
    WroteMore(pieces, fdc.drive, data, p);
    more := pieces + [p];
    if r.Fail? && PieceOf(block, |data|, idx, ptr, lo, hi) {
      BlamedLater(start, now, Now(fdc), r);
    }
  }

  lemma WroteMore(pieces: seq<Piece>, drive: bool, data: seq<byte>, p: Piece)
    requires AllWrote(pieces, drive, data) && Wrote(p, drive, data)
    ensures AllWrote(pieces + [p], drive, data)
  {
    var more := pieces + [p];
    forall i: nat | i < |more|
      ensures Wrote(more[i], drive, data)
    {
      if i < |pieces| {
        assert Wrote(pieces[i], drive, data);
      }
    }
  }

  // ----- what the pieces of a write mean for the disk

  /** The pieces of a write from a start up to 18 that passed. */
  ghost predicate WriteRun(pieces: seq<Piece>, start: Moment, drive: bool, block: nat, data: seq<byte>) {
    && block <= 18 && pieces != [] && Tiles(pieces, start) && Strides(pieces, block, 9216, |data|) && AllWrote(pieces, drive, data)
    && pieces[0].lo == 0 && pieces[0].hi == FirstPart(block, |data|) && pieces[|pieces| - 1].answer.Pass?
  }

  /** Piece `i` of such a write passed, and begins where the one before ended. */
  lemma PieceOfRun(pieces: seq<Piece>, start: Moment, drive: bool, block: nat, data: seq<byte>, i: nat)
    requires WriteRun(pieces, start, drive, block, data) && i < |pieces|
    ensures pieces[i].answer.Pass? && Wrote(pieces[i], drive, data)
    ensures pieces[i].before == if i == 0 then start else pieces[i - 1].after
    ensures i > 0 ==> pieces[i].lo == pieces[i - 1].hi
    ensures pieces[i].ptr == if i == 0 then block else 18 + 9216 * (i - 1)
    ensures i > 0 ==> pieces[i].lo < |data| && pieces[i].hi == Min(pieces[i].lo + TRACK_BYTES, |data|)
  {
    assert Follows(pieces, start, i) && Wrote(pieces[i], drive, data) && StrideAt(pieces[i], i, block, 9216, |data|);
    if i + 1 < |pieces| {
      assert Follows(pieces, start, i + 1);
    }
    assert i > 0 ==> pieces[..i][i - 1] == pieces[i - 1];
  }

  /** The tail of the disk outlives every piece, and no more than eight pieces after the first can pass. */
  lemma {:induction false} TailOutlives(pieces: seq<Piece>, start: Moment, s0: seq<byte>, drive: bool, block: nat,
                                        data: seq<byte>, i: nat)
    requires |s0| == DISK_BYTES && WriteRun(pieces, start, drive, block, data) && i < |pieces|
    ensures i <= 8 && start.view.View? && pieces[i].after.view.View?
    ensures TailOf(s0, pieces[i].after.view.script) == TailOf(s0, start.view.script)
  {
    PieceOfRun(pieces, start, drive, block, data, i);
    var p := pieces[i];
    if i > 0 {
      TailOutlives(pieces, start, s0, drive, block, data, i - 1);
      StrayPiece(s0, p.before.view.script, p.after.view.script, drive, i - 1, data[p.lo..p.hi]);
    } else if p.lo < p.hi {
      FirstTail(s0, p.before.view.script, p.after.view.script, drive, block, data[p.lo..p.hi]);
    }
  }

  lemma FirstTail(s0: seq<byte>, before: seq<Entry>, after: seq<Entry>, drive: bool, ptr: nat, data: seq<byte>)
    requires |s0| == DISK_BYTES && ptr <= 18 && 0 < |data| && SECTOR_SIZE * ptr + |data| <= TAIL
    requires |data| % SECTOR_SIZE == 0 && !Refused(ptr, |data|)
    requires WriteComplete(before, after, RequestParams(drive, ptr, |data|), data)
    ensures TailOf(s0, after) == TailOf(s0, before)
  {
    WritePiece(s0, before, after, drive, ptr, data);
  }

  /** A piece at the place where the data before it ends continues a linear write. */
  lemma Lands(s0: seq<byte>, script0: seq<Entry>, p: Piece, drive: bool, block: nat, data: seq<byte>)
    requires |s0| == DISK_BYTES && Wrote(p, drive, data) && p.answer.Pass? && p.ptr < 9216 && p.hi - p.lo <= DISK_BYTES
    requires p.lo < p.hi ==> SECTOR_SIZE * p.ptr == SECTOR_SIZE * block + p.lo
    requires WrittenSoFar(s0, script0, p.before.view.script, block, data[..p.lo])
    ensures WrittenSoFar(s0, script0, p.after.view.script, block, data[..p.hi])
  {
    assert data[..p.hi] == data[..p.lo] + data[p.lo..p.hi];
    if p.lo < p.hi {
      WriteMore(s0, script0, p.before.view.script, p.after.view.script, drive, block, data[..p.lo], p.ptr, data[p.lo..p.hi]);
    }
  }

  /** A write within two tracks that passed is a linear write. */
  lemma TwoLand(pieces: seq<Piece>, start: Moment, s0: seq<byte>, drive: bool, block: nat, data: seq<byte>)
    requires |s0| == DISK_BYTES && WriteRun(pieces, start, drive, block, data) && EndOf(pieces) == |data|
    requires SECTOR_SIZE * block + |data| <= TAIL
    ensures start.view.View? && pieces[|pieces| - 1].after.view.View?
    ensures WrittenSoFar(s0, start.view.script, pieces[|pieces| - 1].after.view.script, block, data)
  {
    PieceOfRun(pieces, start, drive, block, data, 0);
    assert data[..0] == [] && data[..|data|] == data;
    Lands(s0, start.view.script, pieces[0], drive, block, data);
    if |pieces| > 1 {
      PieceOfRun(pieces, start, drive, block, data, 1);
      Lands(s0, start.view.script, pieces[1], drive, block, data);
      if |pieces| > 2 {
        TrackAfterTrack(pieces, start, drive, block, data);
      }
    }
  }

  /** A third piece exists only when the second was a whole track. */
  lemma TrackAfterTrack(pieces: seq<Piece>, start: Moment, drive: bool, block: nat, data: seq<byte>)
    requires WriteRun(pieces, start, drive, block, data) && |pieces| > 2
    ensures SECTOR_SIZE * block + |data| > TAIL
  {
    PieceOfRun(pieces, start, drive, block, data, 1);
    PieceOfRun(pieces, start, drive, block, data, 2);
  }

  /** A write past sector 36 that leaves the tail alone is a linear write only if the disk already
      held that part of the data. */
  lemma LinearOnlyIfThere(s0: seq<byte>, before: seq<Entry>, after: seq<Entry>, block: nat, data: seq<byte>)
    requires |s0| == DISK_BYTES && SECTOR_SIZE * block <= TAIL < SECTOR_SIZE * block + |data|
    requires WrittenSoFar(s0, before, after, block, data) && TailOf(s0, after) == TailOf(s0, before)
    ensures SECTOR_SIZE * block + |data| <= DISK_BYTES
    ensures data[TAIL - SECTOR_SIZE * block..] == StoreOf(s0, before)[TAIL..SECTOR_SIZE * block + |data|]
  {
    var at, x, y := SECTOR_SIZE * block, StoreOf(s0, before), StoreOf(s0, after);
    var n := at + |data| - TAIL;
    assert y[TAIL..at + |data|] == data[TAIL - at..];
    assert x[TAIL..at + |data|] == x[TAIL..][..n] && y[TAIL..at + |data|] == y[TAIL..][..n];
  }

  /** All that a successful write means for the disk. */
  lemma WriteMeans(pieces: seq<Piece>, start: Moment, end: Moment, s0: seq<byte>, drive: bool, block: nat, data: seq<byte>)
    requires |s0| == DISK_BYTES && |data| < MOD64 / 2 && Ran(pieces, start, end, |data|, Pass)
    requires Strides(pieces, block, 9216, |data|) && AllWrote(pieces, drive, data)
    requires pieces[0].lo == 0 && pieces[0].hi == FirstPart(block, |data|)
    ensures start.view.View? && end.view.View?
    ensures block <= 18 ==> TailOf(s0, end.view.script) == TailOf(s0, start.view.script)
    ensures block <= 18 && SECTOR_SIZE * block + |data| <= TAIL ==>
              WrittenSoFar(s0, start.view.script, end.view.script, block, data)
    ensures 18 < block < 9216 && |data| <= DISK_BYTES ==>
              WrittenSoFar(s0, start.view.script, end.view.script, block, data)
    ensures block <= 18 && SECTOR_SIZE * block + |data| > TAIL && WrittenSoFar(s0, start.view.script, end.view.script, block, data) ==>
              && SECTOR_SIZE * block + |data| <= DISK_BYTES
              && data[TAIL - SECTOR_SIZE * block..] == StoreOf(s0, start.view.script)[TAIL..SECTOR_SIZE * block + |data|]
  {
    var n := |pieces| - 1;
    assert Follows(pieces, start, 0) && Wrote(pieces[0], drive, data) && Wrote(pieces[n], drive, data);
    if block <= 18 {
      TailOutlives(pieces, start, s0, drive, block, data, n);
      if SECTOR_SIZE * block + |data| <= TAIL {
        TwoLand(pieces, start, s0, drive, block, data);
      } else if WrittenSoFar(s0, start.view.script, end.view.script, block, data) {
        LinearOnlyIfThere(s0, start.view.script, end.view.script, block, data);
      }
    } else if block < 9216 && |data| <= DISK_BYTES {
      WholeLands(pieces, start, s0, drive, block, data);
    }
  }

  /** Beyond sector 18 the whole buffer is one piece. */
  lemma WholeLands(pieces: seq<Piece>, start: Moment, s0: seq<byte>, drive: bool, block: nat, data: seq<byte>)
    requires |s0| == DISK_BYTES && 18 < block < 9216 && |data| <= DISK_BYTES
    requires pieces != [] && Tiles(pieces, start) && pieces[|pieces| - 1].answer.Pass?
    requires Strides(pieces, block, 9216, |data|) && AllWrote(pieces, drive, data)
    requires pieces[0].lo == 0 && pieces[0].hi == FirstPart(block, |data|)
    ensures start.view.View? && pieces[|pieces| - 1].after.view.View?
    ensures WrittenSoFar(s0, start.view.script, pieces[|pieces| - 1].after.view.script, block, data)
  {
    assert Follows(pieces, start, 0) && Wrote(pieces[0], drive, data) && StrideAt(pieces[0], 0, block, 9216, |data|);
    if |pieces| > 1 {
      assert Follows(pieces, start, 1);
    }
    assert data[..0] == [] && data[..|data|] == data;
    Lands(s0, start.view.script, pieces[0], drive, block, data);
    if |pieces| > 1 {
      SecondFollows(pieces, start, block, |data|);
    }
  }

  lemma SecondFollows(pieces: seq<Piece>, start: Moment, block: nat, len: nat)
    requires |pieces| > 1 && Tiles(pieces, start) && Strides(pieces, block, 9216, len)
    ensures pieces[0].hi < len
  {
    assert Follows(pieces, start, 1) && StrideAt(pieces[1], 1, block, 9216, len);
  }

  /** `floppyfs::write`. A successful write is a linear write when it ends within the two tracks
      [0, 36), or starts beyond sector 18. When it is longer it never reaches sector 36: whatever
      lay there is still there, so it was linear only if that already was the data. */
  method Write(fdc: Fdc, block: nat, data: seq<byte>, ghost s0: seq<byte>)
    returns (r: Outcome<FloppyError>, ghost pieces: seq<Piece>)
    requires fdc.Ready() && block < MOD64 && |data| < MOD64 / 2 && |s0| == DISK_BYTES
    modifies fdc
    ensures fdc.Ready() && (fdc.floppyInit ==> old(fdc.floppyInit))
    ensures r.Pass? && block <= 18 && SECTOR_SIZE * block + |data| <= TAIL ==>
      WrittenSoFar(s0, old(fdc.view.script), fdc.view.script, block, data)
    ensures r.Pass? && 18 < block < 9216 && |data| <= DISK_BYTES ==>
      WrittenSoFar(s0, old(fdc.view.script), fdc.view.script, block, data)
    ensures r.Pass? && block <= 18 ==>
      TailOf(s0, fdc.view.script) == TailOf(s0, old(fdc.view.script))
    ensures r.Pass? && block <= 18 && SECTOR_SIZE * block + |data| > TAIL
            && WrittenSoFar(s0, old(fdc.view.script), fdc.view.script, block, data) ==>
      && SECTOR_SIZE * block + |data| <= DISK_BYTES
      && data[TAIL - SECTOR_SIZE * block..] ==
           StoreOf(s0, old(fdc.view.script))[TAIL..SECTOR_SIZE * block + |data|]
    ensures r.Fail? && WithinTwo(block, |data|) ==> NotAddress(r.error) && Blamed(old(Now(fdc)), Now(fdc), r)
    ensures Ran(pieces, old(Now(fdc)), Now(fdc), |data|, r) && (r.Pass? ==> GoesOn(old(Now(fdc)), Now(fdc)))
    ensures Strides(pieces, block, 9216, |data|)
  {
    ghost var start, p := Now(fdc), Piece(0, 0, 0, Pass, Now(fdc), Now(fdc));
    var first := FirstPart(block, |data|);
    r, p := WritePart(fdc, block, data, 0, first, [], start, block, -1);
    pieces := [p];
    assert [] + [p] == [p];
    if r.Fail? { return; }
    r, pieces := WriteRest(fdc, data, first, NextTrack(block), p, start, block);
    if r.Pass? {
      WriteMeans(pieces, start, Now(fdc), s0, fdc.drive, block, data);
    }
  }
}
