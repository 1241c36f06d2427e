/** Mounting and formatting (libfs/src/init.rs), first over inodes in memory, then over the floppy. */
module Mount {
  import opened Words
  import opened BlockMap

  const INODES: nat := 140
  const INODE_BYTES: nat := 128
  const TABLE_BYTES: nat := 17920
  const INODE_START: nat := 1
  const INODE_PTRS: nat := 24

  /** An inode without its reserved bytes, which `clone` clears and `==` ignores. */
  datatype INode = INode(mode: (byte, byte), links: byte, size: (byte, byte), blocks: seq<Dual>, parent: (byte, byte))

  predicate Available(n: INode) { n.links == 0 }

  /** The packed layout: mode, links, size, 24 pointer pairs, parent, 49 reserved bytes. */
  function ParseInode(b: seq<byte>): INode
    requires |b| == INODE_BYTES
  {
    INode((b[0], b[1]), b[2], (b[3], b[4]),
          seq(INODE_PTRS, i requires 0 <= i < INODE_PTRS => Dual(b[5 + 3 * i], b[6 + 3 * i], b[7 + 3 * i])),
          (b[77], b[78]))
  }

  function ParseTable(buf: seq<byte>): seq<INode>
    requires |buf| == TABLE_BYTES
  {
    seq(INODES, i requires 0 <= i < INODES => ParseInode(buf[INODE_BYTES * i..INODE_BYTES * i + INODE_BYTES]))
  }

  /** Those of the first `n` inodes that are in use, in disk order. */
  function Active(nods: seq<INode>, n: nat): (r: seq<INode>)
    requires n <= |nods|
    ensures |r| <= n
  {
    if n == 0 then []
    else Active(nods, n - 1) + if Available(nods[n - 1]) then [] else [nods[n - 1]]
  }

  function Valids(d: Dual): seq<Ptr> {
    var (a, b) := Decode(d);
    (if a.Some? then [a.value] else []) + (if b.Some? then [b.value] else [])
  }

  /** The valid pointers of each pair. */
  function Decoded(blocks: seq<Dual>): seq<seq<Ptr>> {
    seq(|blocks|, i requires 0 <= i < |blocks| => Valids(blocks[i]))
  }

  /** The valid block pointers of an inode, none for one that is not in use. */
  function GroupOf(nod: INode): seq<Ptr> {
    if Available(nod) then [] else Flat(Decoded(nod.blocks), |nod.blocks|)
  }

  function Groups(nods: seq<INode>): seq<seq<Ptr>> {
    seq(|nods|, i requires 0 <= i < |nods| => GroupOf(nods[i]))
  }

  /** The trigger keeps proofs about `groups` from unfolding the inodes. */
  ghost predicate Grouped(nods: seq<INode>, groups: seq<seq<Ptr>>) {
    && |nods| == |groups|
    && forall i {:trigger GroupOf(nods[i])} | 0 <= i < |nods| :: groups[i] == GroupOf(nods[i])
  }

  function Flat(groups: seq<seq<Ptr>>, n: nat): seq<Ptr>
    requires n <= |groups|
  {
    if n == 0 then [] else Flat(groups, n - 1) + groups[n - 1]
  }

  /** The valid block pointers of all inodes in use, in disk order. */
  function TablePointers(nods: seq<INode>): seq<Ptr> {
    Flat(Groups(nods), |nods|)
  }

  // ----- which pointers those are

  /** How often block `p` is one of the two pointers of a pair. */
  function Halves(d: Dual, p: Ptr): nat {
    (if Decode(d).0 == Some(p) then 1 else 0) + (if Decode(d).1 == Some(p) then 1 else 0)
  }

  lemma ValidsCount(d: Dual, p: Ptr)
    ensures multiset(Valids(d))[p] == Halves(d, p)
  {
    var (a, b) := Decode(d);
  }

  function Sum(xs: seq<nat>, n: nat): nat
    requires n <= |xs|
  {
    if n == 0 then 0 else Sum(xs, n - 1) + xs[n - 1]
  }

  /** How often the pairs of an inode refer to block `p`. */
  function PairRefs(blocks: seq<Dual>, p: Ptr): nat {
    Sum(seq(|blocks|, i requires 0 <= i < |blocks| => Halves(blocks[i], p)), |blocks|)
  }

  /** The references of one inode: none without a link, otherwise both halves of each of its pairs. */
  function InodeRefs(nod: INode, p: Ptr): nat {
    if nod.links == 0 then 0 else PairRefs(nod.blocks, p)
  }

  /** How often a table refers to block `p`. */
  function Refs(nods: seq<INode>, p: Ptr): nat {
    Sum(seq(|nods|, i requires 0 <= i < |nods| => InodeRefs(nods[i], p)), |nods|)
  }

  /** Counting in a concatenation is adding up the counts. */
  lemma {:induction false} FlatCount(groups: seq<seq<Ptr>>, counts: seq<nat>, n: nat, p: Ptr)
    requires |groups| == |counts| && n <= |groups|
    requires forall i | 0 <= i < |groups| :: multiset(groups[i])[p] == counts[i]
    ensures multiset(Flat(groups, n))[p] == Sum(counts, n)
  {
    if n > 0 {
      FlatCount(groups, counts, n - 1, p);
      assert multiset(groups[n - 1])[p] == counts[n - 1];
    }
  }

  lemma GroupCount(nod: INode, p: Ptr)
    ensures multiset(GroupOf(nod))[p] == InodeRefs(nod, p)
  {
    var n := |nod.blocks|;
    var counts := seq(n, i requires 0 <= i < n => Halves(nod.blocks[i], p));
    forall i | 0 <= i < n
      ensures multiset(Decoded(nod.blocks)[i])[p] == counts[i]
    {
      ValidsCount(nod.blocks[i], p);
    }
    FlatCount(Decoded(nod.blocks), counts, n, p);
  }

  /** The list that mounting marks holds every block as often as the inodes in use refer to it. */
  lemma TableCount(nods: seq<INode>, p: Ptr)
    ensures multiset(TablePointers(nods))[p] == Refs(nods, p)
  {
    var n := |nods|;
    var counts := seq(n, i requires 0 <= i < n => InodeRefs(nods[i], p));
    forall i | 0 <= i < n
      ensures multiset(Groups(nods)[i])[p] == counts[i]
    {
      GroupCount(nods[i], p);
    }
    FlatCount(Groups(nods), counts, n, p);
  }

  lemma {:induction false} DistinctIff(s: seq<Ptr>)
    ensures Distinct(s) <==> forall p: Ptr :: multiset(s)[p] <= 1
  {
    if s != [] {
      var n := |s| - 1;
      var front, last := s[..n], s[n];
      DistinctIff(front);
      assert s == front + [last];
      assert forall p: Ptr :: multiset(s)[p] == multiset(front)[p] + if p == last then 1 else 0;
      if Distinct(s) {
        assert forall i | 0 <= i < n :: front[i] == s[i] != last;
        assert last !in multiset(front);
      }
      if forall p: Ptr :: multiset(s)[p] <= 1 {
        assert multiset(s)[last] <= 1;
        assert last !in multiset(front);
        assert forall i | 0 <= i < n :: front[i] in multiset(front);
      }
    }
  }

  /** Mounting in terms of the inodes alone: it succeeds if and only if the maps of the slots needed are
      free and no block is referred to twice, or once while it is marked or behind a held map. */
  lemma MountableIff(nods: seq<INode>, used: set<nat>, held: seq<bool>, tblHeld: seq<bool>)
    requires |held| == WORDS && |nods| <= |tblHeld|
    ensures Mountable(nods, used, held, tblHeld) <==>
              && AllFree(tblHeld, |Active(nods, |nods|)|)
              && forall p: Ptr :: Refs(nods, p) == 0 || (Refs(nods, p) == 1 && Free(used, held, p))
  {
    forall p: Ptr
      ensures multiset(TablePointers(nods))[p] == Refs(nods, p)
    {
      TableCount(nods, p);
    }
    DisjointIff(TablePointers(nods), used, held);
  }

  /** The blocks a successful mount marks are those referred to. */
  lemma MarkedIff(nods: seq<INode>, p: Ptr)
    ensures p in Elements(TablePointers(nods)) <==> Refs(nods, p) > 0
  {
    TableCount(nods, p);
    assert p in TablePointers(nods) <==> p in multiset(TablePointers(nods));
  }

  lemma DisjointIff(ps: seq<Ptr>, used: set<nat>, held: seq<bool>)
    requires |held| == WORDS
    ensures Disjoint(ps, used, held) <==>
              forall p: Ptr :: multiset(ps)[p] == 0 || (multiset(ps)[p] == 1 && Free(used, held, p))
  {
    DistinctIff(ps);
    if forall p: Ptr :: multiset(ps)[p] == 0 || (multiset(ps)[p] == 1 && Free(used, held, p)) {
      forall i | 0 <= i < |ps|
        ensures Free(used, held, ps[i])
      {
        assert ps[i] in multiset(ps);
        assert multiset(ps)[ps[i]] == 1;
      }
    }
    if Disjoint(ps, used, held) {
      forall p: Ptr
        ensures multiset(ps)[p] == 0 || (multiset(ps)[p] == 1 && Free(used, held, p))
      {
        if p in multiset(ps) {
          var i :| 0 <= i < |ps| && ps[i] == p;
        }
      }
    }
  }

  // ----- the layout on disk

  function Packed(blocks: seq<Dual>): (r: seq<byte>)
    ensures |r| == 3 * |blocks|
  {
    if blocks == [] then []
    else
      var d := blocks[|blocks| - 1];
      Packed(blocks[..|blocks| - 1]) + [d.b0, d.b1, d.b2]
  }

  lemma {:induction false} PackedAt(blocks: seq<Dual>, i: nat)
    requires i < |blocks|
    ensures var r := Packed(blocks); Dual(r[3 * i], r[3 * i + 1], r[3 * i + 2]) == blocks[i]
  {
    if i < |blocks| - 1 {
      PackedAt(blocks[..|blocks| - 1], i);
    }
  }

  /** An inode as the packed structure: mode, links, size, pointer pairs, parent, reserved bytes. */
  function Layout(n: INode): (r: seq<byte>)
    requires |n.blocks| == INODE_PTRS
    ensures |r| == INODE_BYTES
  {
    [n.mode.0, n.mode.1, n.links, n.size.0, n.size.1] + Packed(n.blocks) + [n.parent.0, n.parent.1] + seq(49, _ => 0)
  }

  /** Parsing undoes the layout. */
  lemma ParseLayout(n: INode)
    requires |n.blocks| == INODE_PTRS
    ensures ParseInode(Layout(n)) == n
  {
    var b, packed := Layout(n), Packed(n.blocks);
    assert b[5..77] == packed;
    forall i | 0 <= i < INODE_PTRS
      ensures Dual(b[5 + 3 * i], b[6 + 3 * i], b[7 + 3 * i]) == n.blocks[i]
    {
      PackedAt(n.blocks, i);
      assert b[5..77][3 * i] == b[5 + 3 * i] && b[5..77][3 * i + 1] == b[6 + 3 * i] && b[5..77][3 * i + 2] == b[7 + 3 * i];
    }
    assert ParseInode(b).blocks == n.blocks;
  }

  /** The inodes one after the other. */
  function LayoutAll(nods: seq<INode>): (r: seq<byte>)
    requires forall i | 0 <= i < |nods| :: |nods[i].blocks| == INODE_PTRS
    ensures |r| == INODE_BYTES * |nods|
  {
    if nods == [] then [] else LayoutAll(nods[..|nods| - 1]) + Layout(nods[|nods| - 1])
  }

  lemma {:induction false} LayoutAt(nods: seq<INode>, i: nat)
    requires i < |nods| && forall k | 0 <= k < |nods| :: |nods[k].blocks| == INODE_PTRS
    ensures LayoutAll(nods)[INODE_BYTES * i..INODE_BYTES * i + INODE_BYTES] == Layout(nods[i])
  {
    var n := |nods| - 1;
    var front, last := LayoutAll(nods[..n]), Layout(nods[n]);
    if i < n {
      LayoutAt(nods[..n], i);
      assert (front + last)[INODE_BYTES * i..INODE_BYTES * i + INODE_BYTES] == front[INODE_BYTES * i..INODE_BYTES * i + INODE_BYTES];
    }
  }

  /** A table written inode by inode is read back as those inodes. */
  lemma ParseTableLayout(nods: seq<INode>)
    requires |nods| == INODES && forall k | 0 <= k < |nods| :: |nods[k].blocks| == INODE_PTRS
    ensures ParseTable(LayoutAll(nods)) == nods
  {
    forall i | 0 <= i < INODES
      ensures ParseTable(LayoutAll(nods))[i] == nods[i]
    {
      LayoutAt(nods, i);
      ParseLayout(nods[i]);
    }
  }

  /** The pointers are pairwise distinct, none is marked yet and none sits behind a held map. */
  ghost predicate Disjoint(ps: seq<Ptr>, used: set<nat>, held: seq<bool>)
    requires |held| == WORDS
  {
    Distinct(ps) && forall i | 0 <= i < |ps| :: Free(used, held, ps[i])
  }

  lemma ElementsConcat(a: seq<Ptr>, b: seq<Ptr>)
    ensures Elements(a + b) == Elements(a) + Elements(b)
  {
    assert forall x | x in a + b :: x in a || x in b;
  }

  lemma DistinctConcat(a: seq<Ptr>, b: seq<Ptr>)
    ensures Distinct(a + b) <==> Distinct(a) && Distinct(b) && Elements(a) !! Elements(b)
  {
    var c := a + b;
    assert forall i | 0 <= i < |a| :: c[i] == a[i];
    assert forall j | 0 <= j < |b| :: b[j] == c[|a| + j];
    if Distinct(c) {
      forall i, j | 0 <= i < |a| && 0 <= j < |b|
        ensures a[i] != b[j]
      {
        assert c[i] != c[|a| + j];
      }
    }
    if Distinct(a) && Distinct(b) && Elements(a) !! Elements(b) {
      forall i, j | 0 <= i < j < |c|
        ensures c[i] != c[j]
      {
        if i < |a| <= j {
          assert c[i] in Elements(a) && c[j] in Elements(b);
        } else if i >= |a| {
          assert b[i - |a|] != b[j - |a|];
        }
      }
    }
  }

  /** Marking a concatenation is marking its parts in turn. */
  lemma DisjointConcat(a: seq<Ptr>, b: seq<Ptr>, used: set<nat>, held: seq<bool>)
    requires |held| == WORDS
    ensures Disjoint(a + b, used, held) <==> Disjoint(a, used, held) && Disjoint(b, used + Elements(a), held)
  {
    DistinctConcat(a, b);
    var c := a + b;
    assert forall i | 0 <= i < |a| :: a[i] == c[i];
    assert forall j | 0 <= j < |b| :: b[j] == c[|a| + j] && b[j] in Elements(b);
    if Disjoint(a, used, held) && Disjoint(b, used + Elements(a), held) {
      assert forall x | x in Elements(b) :: x !in Elements(a);
      forall i | 0 <= i < |c|
        ensures Free(used, held, c[i])
      {
        if i >= |a| {
          assert c[i] == b[i - |a|];
        }
      }
    }
  }

  class InodeTable {
    const slots: array<INode>
    const held: array<bool>

    ghost predicate Valid() reads this {
      slots.Length == held.Length
    }

    constructor (zeroed: INode)
      ensures Valid() && slots.Length == INODES && fresh(slots) && fresh(held)
      ensures forall i | 0 <= i < INODES :: slots[i] == zeroed && !held[i]
    {
      slots := new INode[INODES](_ => zeroed);
      held := new bool[INODES](_ => false);
    }
  }

  datatype ReadTblError<+E> = ReadError(e: E) | ExmapError | AllocBmp(a: AllocBmpError)

  /** The bitmap has marked `ps` on top of `used`. */
  ghost predicate MarkedUpTo(bmp: BlockBitmap, ps: seq<Ptr>, used: set<nat>)
    requires bmp.Valid()
    reads bmp, bmp.words, bmp.held
  {
    Disjoint(ps, used, bmp.held[..]) && bmp.blocks == used + Elements(ps)
  }

  /** Mark one more pointer after `done`. */
  method MarkBlock(bmp: BlockBitmap, p: Ptr, ghost done: seq<Ptr>, ghost used: set<nat>)
    returns (r: Outcome<AllocBmpError>)
    requires bmp.Valid() && MarkedUpTo(bmp, done, used)
    modifies bmp.words, bmp`blocks
    ensures bmp.Valid()
    ensures r.Pass? <==> Disjoint(done + [p], used, bmp.held[..])
    ensures r.Pass? ==> MarkedUpTo(bmp, done + [p], used)
  {
    DisjointConcat(done, [p], used, bmp.held[..]);
    ElementsConcat(done, [p]);
    assert [p][0] == p;
    r := bmp.AllocBmp(Some(p));
  }

  /** The innermost loop: the valid pointers of one pair. */
  method MarkPair(bmp: BlockBitmap, blks: seq<Ptr>, ghost done: seq<Ptr>, ghost used: set<nat>)
    returns (r: Outcome<AllocBmpError>)
    requires bmp.Valid() && MarkedUpTo(bmp, done, used)
    modifies bmp.words, bmp`blocks
    ensures bmp.Valid()
    ensures r.Pass? <==> Disjoint(done + blks, used, bmp.held[..])
    ensures r.Pass? ==> MarkedUpTo(bmp, done + blks, used)
  {
    var k := 0;
    assert done + blks[..0] == done;
    while k < |blks|
      invariant 0 <= k <= |blks| && bmp.Valid() && MarkedUpTo(bmp, done + blks[..k], used)
    {
      assert done + blks[..k] + [blks[k]] == done + blks[..k + 1];
      r := MarkBlock(bmp, blks[k], done + blks[..k], used);
      if r.Fail? {
        assert done + blks == done + blks[..k + 1] + blks[k + 1..];
        DisjointConcat(done + blks[..k + 1], blks[k + 1..], used, bmp.held[..]);
        return;
      }
      k := k + 1;
    }
    assert blks[..|blks|] == blks;
    return Pass;
  }

  /** If the pointers of the first `i` pairs cannot be marked, those of all pairs cannot. */
  lemma {:induction false} PairClash(done: seq<Ptr>, pairs: seq<seq<Ptr>>, i: nat, n: nat, used: set<nat>, held: seq<bool>)
    requires |held| == WORDS && i <= n <= |pairs| && !Disjoint(done + Flat(pairs, i), used, held)
    ensures !Disjoint(done + Flat(pairs, n), used, held)
    decreases n
  {
    if i < n {
      PairClash(done, pairs, i, n - 1, used, held);
      DisjointConcat(done + Flat(pairs, n - 1), pairs[n - 1], used, held);
      assert done + Flat(pairs, n) == done + Flat(pairs, n - 1) + pairs[n - 1];
    }
  }

  /** All pairs of one inode, decoded. */
  method MarkInode(bmp: BlockBitmap, pairs: seq<seq<Ptr>>, ghost done: seq<Ptr>, ghost used: set<nat>)
    returns (r: Outcome<AllocBmpError>, count: nat)
    requires bmp.Valid() && MarkedUpTo(bmp, done, used)
    modifies bmp.words, bmp`blocks
    ensures bmp.Valid()
    ensures r.Pass? <==> Disjoint(done + Flat(pairs, |pairs|), used, bmp.held[..])
    ensures r.Pass? ==>
      MarkedUpTo(bmp, done + Flat(pairs, |pairs|), used) && count == |Flat(pairs, |pairs|)|
  {
    count := 0;
    var i := 0;
    assert done + Flat(pairs, 0) == done;
    while i < |pairs|
      invariant 0 <= i <= |pairs| && bmp.Valid()
      invariant MarkedUpTo(bmp, done + Flat(pairs, i), used)
      invariant count == |Flat(pairs, i)|
    {
      assert done + Flat(pairs, i) + pairs[i] == done + Flat(pairs, i + 1);
      r := MarkPair(bmp, pairs[i], done + Flat(pairs, i), used);
      if r.Fail? {
        PairClash(done, pairs, i + 1, |pairs|, used, bmp.held[..]);
        return;
      }
      count := count + |pairs[i]|;
      i := i + 1;
    }
    r := Pass;
  }

  /** The loop body of `read_table` for inode `i`, which is in use. */
  method LoadInode<E>(nods: seq<INode>, i: nat, tbl: InodeTable, bmp: BlockBitmap, active: nat,
                      ghost done: seq<Ptr>, ghost groups: seq<seq<Ptr>>, ghost used: set<nat>)
    returns (r: Outcome<ReadTblError<E>>, count: nat)
    requires tbl.Valid() && bmp.Valid() && active < tbl.slots.Length && MarkedUpTo(bmp, done, used)
    requires Grouped(nods, groups) && i < |nods| && !Available(nods[i])
    modifies tbl.slots, bmp.words, bmp`blocks
    ensures bmp.Valid() && (r.Fail? ==> !r.error.ReadError?)
    ensures r.Pass? <==> !tbl.held[active] && Disjoint(done + groups[i], used, bmp.held[..])
    ensures r.Pass? ==>
      && MarkedUpTo(bmp, done + groups[i], used) && count == |groups[i]|
      && tbl.slots[..] == old(tbl.slots[..])[active := nods[i]]
  {
    if tbl.held[active] {
      return Fail(ExmapError), 0;
    }
    tbl.slots[active] := nods[i];
    assert groups[i] == GroupOf(nods[i]);
    var mark;
    mark, count := MarkInode(bmp, Decoded(nods[i].blocks), done, used);
    r := if mark.Pass? then Pass else Fail(AllocBmp(mark.error));
  }

  /** The first `n` maps are free. */
  ghost predicate AllFree(held: seq<bool>, n: nat)
    requires n <= |held|
  {
    n == 0 || (AllFree(held, n - 1) && !held[n - 1])
  }

  lemma {:induction false} AllFreeIff(held: seq<bool>, n: nat)
    requires n <= |held|
    ensures AllFree(held, n) <==> forall i | 0 <= i < n :: !held[i]
  {
    if n > 0 {
      AllFreeIff(held, n - 1);
    }
  }

  lemma {:induction false} AllFreePrefix(held: seq<bool>, n: nat, m: nat)
    requires n <= m <= |held| && AllFree(held, m)
    ensures AllFree(held, n)
    decreases m
  {
    if n < m {
      AllFreePrefix(held, n, m - 1);
    }
  }

  /** Mounting succeeds: the maps of the slots needed are free, and the blocks of all inodes in use
      are pairwise distinct, not yet marked, and behind free maps. */
  ghost predicate Mountable(nods: seq<INode>, used: set<nat>, held: seq<bool>, tblHeld: seq<bool>)
    requires |held| == WORDS && |nods| <= |tblHeld|
  {
    && AllFree(tblHeld, |Active(nods, |nods|)|)
    && Disjoint(TablePointers(nods), used, held)
  }

  /** A clash among the first groups is a clash among all. */
  lemma {:induction false} FlatPrefix(groups: seq<seq<Ptr>>, n: nat, m: nat, used: set<nat>, held: seq<bool>)
    requires |held| == WORDS && n <= m <= |groups| && Disjoint(Flat(groups, m), used, held)
    ensures Disjoint(Flat(groups, n), used, held)
    decreases m
  {
    if n < m {
      DisjointConcat(Flat(groups, m - 1), groups[m - 1], used, held);
      FlatPrefix(groups, n, m - 1, used, held);
    }
  }

  lemma {:induction false} ActiveGrows(nods: seq<INode>, n: nat, m: nat)
    requires n <= m <= |nods|
    ensures |Active(nods, n)| <= |Active(nods, m)|
    decreases m
  {
    if n < m {
      ActiveGrows(nods, n, m - 1);
    }
  }

  /** What stops the loop at inode `i` stands in the way of the whole table. */
  lemma EarlyClash(nods: seq<INode>, groups: seq<seq<Ptr>>, i: nat, used: set<nat>, held: seq<bool>, tblHeld: seq<bool>)
    requires |held| == WORDS && i < |nods| == |groups| <= |tblHeld| && !Available(nods[i])
    requires tblHeld[|Active(nods, i)|] || !Disjoint(Flat(groups, i) + groups[i], used, held)
    ensures !(AllFree(tblHeld, |Active(nods, |nods|)|) && Disjoint(Flat(groups, |groups|), used, held))
  {
    ActiveGrows(nods, i + 1, |nods|);
    if AllFree(tblHeld, |Active(nods, |nods|)|) && Disjoint(Flat(groups, |groups|), used, held) {
      AllFreePrefix(tblHeld, |Active(nods, i + 1)|, |Active(nods, |nods|)|);
      FlatPrefix(groups, i + 1, |groups|, used, held);
    }
  }

  /** The table and the counters after the first `i` inodes. */
  ghost predicate Loaded(nods: seq<INode>, groups: seq<seq<Ptr>>, i: nat, slots: seq<INode>, slots0: seq<INode>,
                         tblHeld: seq<bool>, active: nat, usedBlocks: nat)
    requires i <= |nods| == |groups| <= |tblHeld| == |slots0|
  {
    && active == |Active(nods, i)| && slots == Active(nods, i) + slots0[active..]
    && AllFree(tblHeld, active) && usedBlocks == |Flat(groups, i)|
  }

  lemma LoadedSkip(nods: seq<INode>, groups: seq<seq<Ptr>>, i: nat, slots: seq<INode>, slots0: seq<INode>,
                   tblHeld: seq<bool>, active: nat, usedBlocks: nat)
    requires i < |nods| == |groups| <= |tblHeld| == |slots0| && Available(nods[i]) && Grouped(nods, groups)
    requires Loaded(nods, groups, i, slots, slots0, tblHeld, active, usedBlocks)
    ensures Loaded(nods, groups, i + 1, slots, slots0, tblHeld, active, usedBlocks)
    ensures Flat(groups, i + 1) == Flat(groups, i)
  {
    assert GroupOf(nods[i]) == [];
  }

  lemma LoadedNext(nods: seq<INode>, groups: seq<seq<Ptr>>, i: nat, slots: seq<INode>, slots0: seq<INode>,
                   tblHeld: seq<bool>, active: nat, usedBlocks: nat)
    requires i < |nods| == |groups| <= |tblHeld| == |slots0| && !Available(nods[i])
    requires Loaded(nods, groups, i, slots, slots0, tblHeld, active, usedBlocks) && !tblHeld[active]
    ensures active < |slots|
    ensures Loaded(nods, groups, i + 1, slots[active := nods[i]], slots0, tblHeld, active + 1,
                   usedBlocks + |groups[i]|)
  {
    FillSlot(Active(nods, i), nods[i], slots0);
  }

  lemma FillSlot(acts: seq<INode>, nod: INode, slots: seq<INode>)
    requires |acts| < |slots|
    ensures (acts + slots[|acts|..])[|acts| := nod] == acts + [nod] + slots[|acts| + 1..]
  {
  }

  lemma MountedCount(ps: seq<Ptr>, used: set<nat>, held: seq<bool>)
    requires |held| == WORDS && Disjoint(ps, used, held)
    ensures |used + Elements(ps)| == |used| + |ps|
  {
    DistinctCount(ps);
    assert used !! Elements(ps);
  }

  /** `read_table` after the read: the table's first slots receive the inodes in use, in disk order,
      and their blocks are marked. It succeeds exactly when `Mountable`. */
  method LoadTable<E>(nods: seq<INode>, tbl: InodeTable, bmp: BlockBitmap)
    returns (r: Outcome<ReadTblError<E>>, active: nat, usedBlocks: nat)
    requires tbl.Valid() && bmp.Valid() && |nods| <= tbl.slots.Length
    modifies tbl.slots, bmp.words, bmp`blocks
    ensures bmp.Valid() && (r.Fail? ==> !r.error.ReadError?)
    ensures r.Pass? <==> Mountable(nods, old(bmp.blocks), bmp.held[..], tbl.held[..])
    ensures r.Pass? ==>
      && bmp.blocks == old(bmp.blocks) + Elements(TablePointers(nods))
      && usedBlocks == |bmp.blocks| - |old(bmp.blocks)|
      && active == |Active(nods, |nods|)| && tbl.slots[..active] == Active(nods, |nods|)
      && tbl.slots[active..] == old(tbl.slots[active..])
  {
    ghost var used := bmp.blocks;
    r, active, usedBlocks := LoadLoop(nods, tbl, bmp, Groups(nods));
    if r.Pass? {
      assert tbl.slots[..][..active] == tbl.slots[..active] && tbl.slots[..][active..] == tbl.slots[active..];
      MountedCount(TablePointers(nods), used, bmp.held[..]);
    }
  }

  /** The loop over the inodes, for any list of their pointer groups. */
  method LoadLoop<E>(nods: seq<INode>, tbl: InodeTable, bmp: BlockBitmap, ghost groups: seq<seq<Ptr>>)
    returns (r: Outcome<ReadTblError<E>>, active: nat, usedBlocks: nat)
    requires tbl.Valid() && bmp.Valid() && Grouped(nods, groups) && |nods| <= tbl.slots.Length
    modifies tbl.slots, bmp.words, bmp`blocks
    ensures bmp.Valid() && (r.Fail? ==> !r.error.ReadError?)
    ensures r.Pass? <==>
      && AllFree(tbl.held[..], |Active(nods, |nods|)|)
      && Disjoint(Flat(groups, |groups|), old(bmp.blocks), bmp.held[..])
    ensures r.Pass? ==>
      && bmp.blocks == old(bmp.blocks) + Elements(Flat(groups, |groups|))
      && Loaded(nods, groups, |nods|, tbl.slots[..], old(tbl.slots[..]), tbl.held[..], active, usedBlocks)
  {
    ghost var used, tblHeld, slots0 := bmp.blocks, tbl.held[..], tbl.slots[..];
    active, usedBlocks := 0, 0;
    var i := 0;
    while i < |nods|
      invariant 0 <= i <= |nods| && bmp.Valid() && tbl.held[..] == tblHeld
      invariant Loaded(nods, groups, i, tbl.slots[..], slots0, tblHeld, active, usedBlocks)
      invariant MarkedUpTo(bmp, Flat(groups, i), used)
    {
      if Available(nods[i]) {
        LoadedSkip(nods, groups, i, tbl.slots[..], slots0, tblHeld, active, usedBlocks);
      } else {
        ghost var slots := tbl.slots[..];
        var count;
        r, count := LoadInode(nods, i, tbl, bmp, active, Flat(groups, i), groups, used);
        if r.Fail? {
          EarlyClash(nods, groups, i, used, bmp.held[..], tblHeld);
          return;
        }
        LoadedNext(nods, groups, i, slots, slots0, tblHeld, active, usedBlocks);
        active, usedBlocks := active + 1, usedBlocks + count;
      }
      i := i + 1;
    }
    assert i == |nods| == |groups|;
    r := Pass;
  }
}
