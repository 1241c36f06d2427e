/** Block pointers and the block bitmap of libfs (libfs/src/lib.rs, libfs/src/table.rs). */
module BlockMap {
  import opened Words

  // ----- u128 words, bit by bit

  function Pow2(k: nat): nat {
    if k == 0 then 1 else 2 * Pow2(k - 1)
  }

  predicate BitOf(w: nat, k: nat) {
    if k == 0 then w % 2 == 1 else BitOf(w / 2, k - 1)
  }

  /** The operators `&` and `|`. */
  function And(a: nat, b: nat): nat {
    if a == 0 || b == 0 then 0
    else 2 * And(a / 2, b / 2) + if a % 2 == 1 && b % 2 == 1 then 1 else 0
  }

  function Or(a: nat, b: nat): nat {
    if a == 0 && b == 0 then 0
    else 2 * Or(a / 2, b / 2) + if a % 2 == 1 || b % 2 == 1 then 1 else 0
  }

  lemma {:induction false} ZeroBits(k: nat)
    ensures !BitOf(0, k)
  {
    if k > 0 {
      ZeroBits(k - 1);
    }
  }

  lemma {:induction false} OrBits(a: nat, b: nat, k: nat)
    ensures BitOf(Or(a, b), k) <==> BitOf(a, k) || BitOf(b, k)
    decreases k
  {
    if k > 0 {
      OrBits(a / 2, b / 2, k - 1);
      if a == 0 && b == 0 {
        ZeroBits(k);
      }
    }
  }

  lemma {:induction false} MaskBits(j: nat, k: nat)
    ensures BitOf(Pow2(k), j) <==> j == k
    decreases k
  {
    if k == 0 {
      if j > 0 {
        ZeroBits(j - 1);
      }
    } else if j > 0 {
      MaskBits(j - 1, k - 1);
    }
  }

  lemma {:induction false} AndMask(w: nat, k: nat)
    ensures And(w, Pow2(k)) != 0 <==> BitOf(w, k)
    decreases k
  {
    if k == 0 {
    } else {
      AndMask(w / 2, k - 1);
      if w == 0 {
        ZeroBits(k);
      }
    }
  }

  lemma {:induction false} OrFits(a: nat, b: nat, n: nat)
    requires a < Pow2(n) && b < Pow2(n)
    ensures Or(a, b) < Pow2(n)
    decreases n
  {
    if n > 0 {
      OrFits(a / 2, b / 2, n - 1);
    }
  }

  lemma {:induction false} MaskFits(k: nat, n: nat)
    requires k < n
    ensures Pow2(k) < Pow2(n)
    decreases n
  {
    if k > 0 {
      MaskFits(k - 1, n - 1);
    } else if n > 1 {
      MaskFits(0, n - 1);
    }
  }

  // ----- block pointers

  /** BlockPtr::MAX_VAL. */
  const MAX_VAL: nat := 4096
  const U128_BITS: nat := 128
  const WORDS: nat := 32

  /** `BlockPtr::new`: zero is null, large values saturate. */
  function NewPtr(x: nat): Option<nat> {
    if x == 0 then None else if x < MAX_VAL then Some(x) else Some(MAX_VAL)
  }

  function GetNullable(p: Option<nat>): nat {
    if p.Some? then p.value else 0
  }

  /** A valid pointer that fits the bitmap. */
  type Ptr = p: nat | 0 < p < 4096 witness 1

  /** The range that `NewPtr` guarantees. */
  predicate IsPtr(p: Option<nat>) {
    p.Some? ==> 0 < p.value <= MAX_VAL
  }

  datatype Dual = Dual(b0: byte, b1: byte, b2: byte)

  function Decode(d: Dual): (Option<nat>, Option<nat>) {
    (NewPtr(d.b0 * 16 + d.b1 / 16), NewPtr(d.b1 % 16 * 256 + d.b2))
  }

  /** Bytes are u8 casts of u16 values. */
  function Encode(a: Option<nat>, b: Option<nat>): Dual {
    var fst, snd := GetNullable(a), GetNullable(b);
    Dual(fst / 16 % 256, (fst % 16 * 16 + snd / 256 % 16) % 256, snd % 256)
  }

  lemma Nibbles(hi: nat, lo: nat)
    requires hi < 16 && lo < 16
    ensures (hi * 16 + lo) / 16 == hi && (hi * 16 + lo) % 16 == lo && (hi * 16 + lo) % 256 == hi * 16 + lo
  {
  }

  lemma FirstTwelve(x: nat)
    requires x <= MAX_VAL
    ensures x / 16 % 256 * 16 + x % 16 == x % MAX_VAL
  {
    assert x / 16 == 256 || x / 16 < 256;
  }

  lemma SecondTwelve(x: nat)
    requires x <= MAX_VAL
    ensures x / 256 % 16 * 256 + x % 256 == x % MAX_VAL
  {
    assert x / 256 == 16 || x / 256 < 16;
  }

  /** The two 12-bit numbers held by the bytes of an encoding. */
  lemma EncodedValues(a: Option<nat>, b: Option<nat>)
    requires IsPtr(a) && IsPtr(b)
    ensures var d := Encode(a, b);
            && d.b0 * 16 + d.b1 / 16 == GetNullable(a) % MAX_VAL
            && d.b1 % 16 * 256 + d.b2 == GetNullable(b) % MAX_VAL
  {
    var fst, snd := GetNullable(a), GetNullable(b);
    var y: nat, z: nat := fst % 16, snd / 256 % 16;
    Nibbles(y, z);
    FirstTwelve(fst);
    SecondTwelve(snd);
    assert Encode(a, b) == Dual(fst / 16 % 256, y * 16 + z, snd % 256);
  }

  /** Packing two pointers into three bytes loses nothing exactly when neither is the saturated
      value 4096. */
  lemma PackRoundTrip(a: Option<nat>, b: Option<nat>)
    requires IsPtr(a) && IsPtr(b)
    ensures Decode(Encode(a, b)) == (a, b) <==> a != Some(MAX_VAL) && b != Some(MAX_VAL)
  {
    EncodedValues(a, b);
    PtrRoundTrip(a);
    PtrRoundTrip(b);
  }

  lemma PtrRoundTrip(p: Option<nat>)
    requires IsPtr(p)
    ensures NewPtr(GetNullable(p) % MAX_VAL) == p <==> p != Some(MAX_VAL)
  {
  }

  /** Every three bytes are the packing of the pointers they hold, all of them below 4096. */
  lemma UnpackRoundTrip(d: Dual)
    ensures Encode(Decode(d).0, Decode(d).1) == d
    ensures IsPtr(Decode(d).0) && Decode(d).0 != Some(MAX_VAL)
    ensures IsPtr(Decode(d).1) && Decode(d).1 != Some(MAX_VAL)
  {
    var hi: nat, lo: nat := d.b1 / 16, d.b1 % 16;
    assert d.b1 == hi * 16 + lo;
    EncodeHalves(d.b0, hi, lo, d.b2);
  }

  lemma EncodeHalves(b0: nat, hi: nat, lo: nat, b2: nat)
    requires b0 < 256 && hi < 16 && lo < 16 && b2 < 256
    ensures Encode(NewPtr(b0 * 16 + hi), NewPtr(lo * 256 + b2)) == Dual(b0, hi * 16 + lo, b2)
  {
    var fst, snd := b0 * 16 + hi, lo * 256 + b2;
    Split16(b0, hi);
    Split256(lo, b2);
    Nibbles(hi, lo);
    assert GetNullable(NewPtr(fst)) == fst && GetNullable(NewPtr(snd)) == snd;
  }

  lemma Split16(hi: nat, lo: nat)
    requires lo < 16
    ensures (hi * 16 + lo) / 16 == hi && (hi * 16 + lo) % 16 == lo
  {
  }

  lemma Split256(hi: nat, lo: nat)
    requires lo < 256
    ensures (hi * 256 + lo) / 256 == hi && (hi * 256 + lo) % 256 == lo
  {
  }

  // ----- the bitmap

  datatype AllocBmpError = NullPtr | AlreadyInUse(p: nat) | ExmapInUse(p: nat)

  ghost predicate BitAt(words: seq<nat>, p: nat)
    requires |words| == WORDS && p < MAX_VAL
  {
    BitOf(words[p / U128_BITS], p % U128_BITS)
  }

  /** `words` is the set `blocks`. */
  ghost predicate Represents(words: seq<nat>, blocks: set<nat>) {
    && |words| == WORDS
    && (forall i | 0 <= i < WORDS :: words[i] < Pow2(U128_BITS))
    && (forall p: nat {:trigger BitAt(words, p)} | p < MAX_VAL :: p in blocks <==> BitAt(words, p))
    && (forall p | p in blocks :: p < MAX_VAL)
  }

  lemma MarkOne(words: seq<nat>, blocks: set<nat>, p: nat)
    requires Represents(words, blocks) && p < MAX_VAL
    ensures Represents(words[p / 128 := Or(words[p / 128], Pow2(p % 128))], blocks + {p})
  {
    var after := words[p / 128 := Or(words[p / 128], Pow2(p % 128))];
    MaskFits(p % U128_BITS, U128_BITS);
    OrFits(words[p / U128_BITS], Pow2(p % U128_BITS), U128_BITS);
    forall q: nat | q < MAX_VAL
      ensures BitAt(after, q) <==> BitAt(words, q) || q == p
    {
      OrBits(words[p / 128], Pow2(p % 128), q % 128);
      MaskBits(q % 128, p % 128);
    }
  }

  /** What an allocation of `p` answers, given the marked blocks and whether its word is locked. */
  ghost function AllocAnswer(used: set<nat>, locked: bool, p: Option<nat>): Outcome<AllocBmpError> {
    match p
    case None => Fail(NullPtr)
    case Some(x) =>
      if locked then Fail(ExmapInUse(x)) else if x in used then Fail(AlreadyInUse(x)) else Pass
  }

  class BlockBitmap {
    /** The u128 words, and which of their exclusive maps are held elsewhere. */
    const words: array<nat>
    const held: array<bool>

    ghost var blocks: set<nat>

    ghost predicate Valid() reads this, words {
      words.Length == WORDS && held.Length == WORDS && Represents(words[..], blocks)
    }

    constructor ()
      ensures Valid() && fresh(words) && fresh(held)
      ensures blocks == {} && forall i | 0 <= i < WORDS :: !held[i]
    {
      words := new nat[WORDS](_ => 0);
      held := new bool[WORDS](_ => false);
      blocks := {};
      new;
      MaskFits(0, U128_BITS);
      forall p: nat | p < MAX_VAL
        ensures !BitAt(words[..], p)
      {
        ZeroBits(p % U128_BITS);
      }
    }

    /** `alloc_bmp`. Pointer 4096 would index past the last word, so the source panics on it. */
    method AllocBmp(block: Option<nat>) returns (r: Outcome<AllocBmpError>)
      requires Valid() && IsPtr(block) && block != Some(MAX_VAL)
      modifies words, `blocks
      ensures Valid()
      ensures r == AllocAnswer(old(blocks), block.Some? && held[block.value / 128], block)
      ensures r == Fail(NullPtr) <==> block.None?
      ensures block.Some? ==> (r == Fail(ExmapInUse(block.value)) <==> held[block.value / 128])
      ensures block.Some? ==> (r == Fail(AlreadyInUse(block.value)) <==> block.value in old(blocks) && !held[block.value / 128])
      ensures blocks == old(blocks) + if r.Pass? then {block.value} else {}
    {
      if block.None? { return Fail(NullPtr); }
      var ptr := block.value;
      var idx := ptr / U128_BITS;
      var bit := Pow2(ptr % U128_BITS);
      if held[idx] { return Fail(ExmapInUse(ptr)); }
      assert ptr in blocks <==> BitAt(words[..], ptr);
      AndMask(words[idx], ptr % U128_BITS);
      if And(words[idx], bit) != 0 { return Fail(AlreadyInUse(ptr)); }
      MarkOne(words[..], blocks, ptr);
      ghost var before := words[..];
      words[idx] := Or(words[idx], bit);
      blocks := blocks + {ptr};
      assert words[..] == before[idx := Or(before[idx], bit)];
      return Pass;
    }

    /** `alloc_next_bmp`: the least block that is neither marked nor behind a held map. */
    method AllocNextBmp() returns (blk: Option<nat>)
      requires Valid()
      modifies words, `blocks
      ensures Valid() && blk == LeastFree(old(blocks), held[..], 1)
      ensures blocks == old(blocks) + if blk.Some? then {blk.value} else {}
    {
      var ptr := 1;
      while ptr < MAX_VAL
        invariant 1 <= ptr <= MAX_VAL && Valid() && blocks == old(blocks)
        invariant LeastFree(old(blocks), held[..], 1) == LeastFree(old(blocks), held[..], ptr)
      {
        var r := AllocBmp(Some(ptr));
        if r.Pass? {
          return Some(ptr);
        }
        ptr := ptr + 1;
      }
      return None;
    }
  }

  ghost predicate Free(used: set<nat>, held: seq<bool>, p: nat)
    requires |held| == WORDS && p < MAX_VAL
  {
    p !in used && !held[p / U128_BITS]
  }

  ghost function LeastFree(used: set<nat>, held: seq<bool>, from: nat): Option<nat>
    requires |held| == WORDS
    decreases MAX_VAL - from
  {
    if from >= MAX_VAL then None
    else if Free(used, held, from) then Some(from)
    else LeastFree(used, held, from + 1)
  }

  /** `LeastFree` is the minimum, and is absent only when there is no candidate. */
  lemma {:induction false} LeastFreeIsLeast(used: set<nat>, held: seq<bool>, from: nat)
    requires |held| == WORDS
    ensures var r := LeastFree(used, held, from);
            match r
            case Some(p) => from <= p < MAX_VAL && Free(used, held, p)
                            && forall q | from <= q < p :: !Free(used, held, q)
            case None => forall q | from <= q < MAX_VAL :: !Free(used, held, q)
    decreases MAX_VAL - from
  {
    if from < MAX_VAL && !Free(used, held, from) {
      LeastFreeIsLeast(used, held, from + 1);
    }
  }

  // ----- runs of the allocator

  datatype Request = Take(p: nat) | TakeNext

  ghost predicate Legal(reqs: seq<Request>) {
    forall i | 0 <= i < |reqs| && reqs[i].Take? :: reqs[i].p < MAX_VAL
  }

  /** The block granted to one request, if any: `alloc_bmp` or `alloc_next_bmp`. */
  ghost function Granted(used: set<nat>, held: seq<bool>, req: Request): Option<nat>
    requires |held| == WORDS && (req.Take? ==> req.p < MAX_VAL)
  {
    match req
    case Take(p) =>
      if AllocAnswer(used, held[p / U128_BITS], NewPtr(p)).Pass? then Some(p) else None
    case TakeNext => LeastFree(used, held, 1)
  }

  /** The grants of a run, in order. */
  ghost function Grants(used: set<nat>, held: seq<bool>, reqs: seq<Request>): seq<nat>
    requires |held| == WORDS && Legal(reqs)
  {
    if reqs == [] then []
    else
      var before := Grants(used, held, reqs[..|reqs| - 1]);
      match Granted(used + Elements(before), held, reqs[|reqs| - 1])
      case Some(p) => before + [p]
      case None => before
  }

  ghost function Elements(s: seq<nat>): set<nat> {
    set x | x in s
  }

  ghost predicate Distinct(s: seq<nat>) {
    forall i, j | 0 <= i < j < |s| :: s[i] != s[j]
  }

  lemma {:induction false} DistinctCount(s: seq<nat>)
    requires Distinct(s)
    ensures |Elements(s)| == |s|
  {
    if s != [] {
      var front := s[..|s| - 1];
      DistinctCount(front);
      assert Elements(s) == Elements(front) + {s[|s| - 1]};
    }
  }

  /** The pointers 1, .., n. */
  ghost function UpTo(n: nat): set<nat> {
    if n == 0 then {} else UpTo(n - 1) + {n}
  }

  lemma {:induction false} UpToCount(n: nat)
    ensures |UpTo(n)| == n && forall x: nat :: x in UpTo(n) <==> 1 <= x <= n
  {
    if n > 0 {
      UpToCount(n - 1);
    }
  }

  /** Over every run of allocations: no block is granted twice, none that was marked before, never
      block 0, and so at most 4095 grants ever succeed. */
  lemma {:induction false} NoDoubleGrant(used: set<nat>, held: seq<bool>, reqs: seq<Request>)
    requires |held| == WORDS && Legal(reqs)
    ensures var g := Grants(used, held, reqs);
            && Distinct(g) && Elements(g) !! used
            && (forall p | p in g :: 1 <= p < MAX_VAL && !held[p / U128_BITS])
            && |g| <= MAX_VAL - 1
  {
    var g := Grants(used, held, reqs);
    if reqs != [] {
      NoDoubleGrant(used, held, reqs[..|reqs| - 1]);
      LeastFreeIsLeast(used + Elements(Grants(used, held, reqs[..|reqs| - 1])), held, 1);
    }
    DistinctCount(g);
    UpToCount(MAX_VAL - 1);
    SubsetCount(Elements(g), UpTo(MAX_VAL - 1));
  }

  lemma {:induction false} SubsetCount(a: set<nat>, b: set<nat>)
    requires a <= b
    ensures |a| <= |b|
  {
    assert a + (b - a) == b;
  }

  /** A run of requests against the bitmap itself: its grants are those of `Grants`, so NoDoubleGrant
      speaks about them. */
  method Serve(bmp: BlockBitmap, reqs: seq<Request>) returns (grants: seq<nat>)
    requires bmp.Valid() && Legal(reqs)
    modifies bmp.words, bmp`blocks
    ensures bmp.Valid() && grants == Grants(old(bmp.blocks), bmp.held[..], reqs)
    ensures bmp.blocks == old(bmp.blocks) + Elements(grants)
  {
    grants := [];
    ghost var used, held := bmp.blocks, bmp.held[..];
    for i := 0 to |reqs|
      invariant bmp.Valid() && bmp.held[..] == held
      invariant grants == Grants(used, held, reqs[..i]) && bmp.blocks == used + Elements(grants)
    {
      assert reqs[..i + 1][..i] == reqs[..i];
      var got := ServeOne(bmp, reqs[i]);
      if got.Some? {
        ElementsAdd(grants, got.value);
        grants := grants + [got.value];
      }
    }
    assert reqs[..|reqs|] == reqs;
  }

  method ServeOne(bmp: BlockBitmap, req: Request) returns (got: Option<nat>)
    requires bmp.Valid() && (req.Take? ==> req.p < MAX_VAL)
    modifies bmp.words, bmp`blocks
    ensures bmp.Valid() && got == Granted(old(bmp.blocks), bmp.held[..], req)
    ensures bmp.blocks == old(bmp.blocks) + if got.Some? then {got.value} else {}
  {
    match req
    case Take(p) =>
      var r := bmp.AllocBmp(NewPtr(p));
      got := if r.Pass? then Some(p) else None;
    case TakeNext =>
      got := bmp.AllocNextBmp();
  }

  lemma ElementsAdd(s: seq<nat>, x: nat)
    ensures Elements(s + [x]) == Elements(s) + {x}
  {
  }
}
