/**
 * The ip prefix tree: a table from the upper two octets (a, b) of an address
 * to a bucket of leaves keyed by the sub-index c*256+d of the lower two.
 * A leaf {begin, end, country} stands for every sub-index in [begin, end],
 * so one leaf covers a whole run of one input range inside one /16 block.
 */
module PrefixTree {
  import opened AddressCodec

  const BLOCK: nat := 65536

  /** Position of an address inside its /16 block: c*256 + d. */
  type SubIndex = x: int | 0 <= x < 65536

  /** The first two octets of an address: the path to a bucket. */
  type Prefix = (Octet, Octet)

  type Country = string

  datatype Option<T> = None | Some(value: T)

  /** A leaf node of the tree. */
  datatype Leaf = Leaf(begin: int, end: int, country: Country)

  /** One input line: the inclusive range [start, end] of addresses owned by country. */
  datatype Range = Range(start: Address, end: Address, country: Country)

  type Bucket = map<SubIndex, Leaf>

  type Table = map<Prefix, Bucket>

  predicate Contains(l: Leaf, index: int)
  {
    l.begin <= index <= l.end
  }

  predicate InRange(r: Range, x: int)
  {
    r.start <= x <= r.end
  }

  /** Every leaf sits at the key equal to its begin and covers a non-empty part of [0, 65535]. */
  ghost predicate WellFormedTable(t: Table)
  {
    forall p, k :: p in t && k in t[p] ==> t[p][k].begin == k && k <= t[p][k].end <= 65535
  }

  // ---------------------------------------------------------------------
  // Addresses split into a /16 block and a sub-index

  function BlockNumber(p: Prefix): nat
  {
    p.0 * 256 + p.1
  }

  function PrefixOfBlock(n: int): (p: Prefix)
    requires 0 <= n < 65536
    ensures BlockNumber(p) == n
  {
    (n / 256, n % 256)
  }

  lemma PrefixOfBlockNumber(p: Prefix)
    ensures PrefixOfBlock(BlockNumber(p)) == p
  {
    DivModUnique(BlockNumber(p), p.0, p.1);
  }

  /** The bucket path of an address: its octets a and b. */
  function BlockOf(x: Address): Prefix
  {
    var q := Long2IpArray(x);
    (q.a, q.b)
  }

  /** The sub-index of an address: c*256 + d. */
  function SubOf(x: Address): SubIndex
  {
    var q := Long2IpArray(x);
    q.c * 256 + q.d
  }

  /** The octet-wise split of long2iparray is the split of x by 65536. */
  lemma BlockAndSub(x: Address)
    ensures BlockNumber(BlockOf(x)) == x / BLOCK && SubOf(x) == x % BLOCK
    ensures BlockOf(x) == PrefixOfBlock(x / BLOCK)
  {
    var q := Long2IpArray(x);
    var hi := q.a * 256 + q.b;
    var lo := q.c * 256 + q.d;
    assert x == hi * 65536 + lo;
    assert 0 <= lo < 65536;
    PrefixOfBlockNumber(BlockOf(x));
  }

  // ---------------------------------------------------------------------
  // What inserting one range writes: one leaf per /16 block it meets

  /** Whether range r meets /16 block number n. */
  predicate Spans(r: Range, n: int)
  {
    r.start <= r.end && r.start / BLOCK <= n <= r.end / BLOCK
  }

  /** The key of r's leaf in block n: where r starts in its first block, 0 in every later one. */
  function KeyIn(r: Range, n: int): SubIndex
  {
    if n == r.start / BLOCK then r.start % BLOCK else 0
  }

  /** The leaf r leaves in block n: up to 65535, except in r's last block, where it ends with r. */
  function Piece(r: Range, n: int): Leaf
  {
    Leaf(KeyIn(r, n), if n == r.end / BLOCK then r.end % BLOCK else 65535, r.country)
  }

  function SpannedPrefixes(r: Range): set<Prefix>
  {
    set n | r.start / BLOCK <= n <= r.end / BLOCK && r.start <= r.end :: PrefixOfBlock(n)
  }

  /**
   * The table after range r is added to t: every block r meets gets r's
   * piece at r's key there, replacing any leaf already at that key (creating
   * the bucket if needed); every other bucket and key stays as it was.
   */
  function Inserted(t: Table, r: Range): Table
  {
    map p | p in t.Keys + SpannedPrefixes(r) ::
      if Spans(r, BlockNumber(p)) then
        (if p in t then t[p] else map[])[KeyIn(r, BlockNumber(p)) := Piece(r, BlockNumber(p))]
      else
        t[p]
  }

  /** The table after the ranges are added one after another. */
  function InsertAll(t: Table, ranges: seq<Range>): Table
    decreases |ranges|
  {
    if ranges == [] then t
    else Inserted(InsertAll(t, ranges[..|ranges| - 1]), ranges[|ranges| - 1])
  }

  // ---------------------------------------------------------------------
  // What lookup answers

  /**
   * The country of the first leaf, in ascending key order from k on, that
   * contains index: the order in which JavaScript's for..in visits the
   * integer keys of a bucket object.
   */
  function ScanFrom(bucket: Bucket, index: int, k: int): Option<Country>
    requires 0 <= k <= BLOCK
    decreases BLOCK - k
  {
    if k == BLOCK then None
    else if k in bucket && Contains(bucket[k], index) then Some(bucket[k].country)
    else ScanFrom(bucket, index, k + 1)
  }

  /**
   * The scan from key k answers null exactly when no leaf at a key from k on
   * contains index, and otherwise the country of the containing leaf with
   * the smallest such key.
   */
  lemma {:induction false} ScanFromFirst(bucket: Bucket, index: int, k: int)
    requires 0 <= k <= BLOCK
    ensures ScanFrom(bucket, index, k).None? <==>
      forall k' :: k <= k' < BLOCK && k' in bucket ==> !Contains(bucket[k'], index)
    ensures ScanFrom(bucket, index, k).Some? ==>
      exists k' :: && k <= k' < BLOCK && k' in bucket && Contains(bucket[k'], index)
                   && bucket[k'].country == ScanFrom(bucket, index, k).value
                   && (forall k'' :: k <= k'' < k' && k'' in bucket ==> !Contains(bucket[k''], index))
    decreases BLOCK - k
  {
    if k < BLOCK && !(k in bucket && Contains(bucket[k], index)) {
      ScanFromFirst(bucket, index, k + 1);
    }
  }

  /** The answer of lookup for address x: null when its bucket is missing or no leaf there contains it. */
  function Find(t: Table, x: Address): Option<Country>
  {
    var p := BlockOf(x);
    if p in t then ScanFrom(t[p], SubOf(x), 0) else None
  }

  // ---------------------------------------------------------------------
  // The tree object

  class GeoTable {
    /** The module-level ipPrefixTree. */
    var tree: Table

    ghost predicate Valid()
      reads this
    {
      WellFormedTable(tree)
    }

    /** The tree before any data is loaded: empty. */
    constructor ()
      ensures Valid() && tree == map[]
      ensures forall x: Address :: Find(tree, x) == None
    {
      tree := map[];
    }

    /**
     * The body of the range loop of loadData for one input line: walks j
     * from start to end, writing one leaf per /16 block and jumping either
     * to the first address of the next block or past end.
     */
    method InsertRange(start: Address, end: Address, country: Country)
      requires Valid()
      modifies this
      ensures Valid()
      ensures tree == Inserted(old(tree), Range(start, end, country))
    {
      ghost var t0 := tree;
      var j: int := start;
      while j <= end
        invariant start <= j && (j > start ==> j <= end + 1)
        invariant j == start || j % BLOCK == 0 || j == end + 1
        invariant WellFormedTable(t0) && WellFormedTable(tree)
        invariant j == start ==> tree == t0
        invariant j > start ==> tree == Inserted(t0, Range(start, j - 1, country))
        decreases end + 1 - j
      {
        ghost var before := tree;
        var arr := Long2IpArray(j);
        var p: Prefix := (arr.a, arr.b);
        if p !in tree {
          tree := tree[p := map[]];
        }
        var startArrayIndex: SubIndex := arr.c * 256 + arr.d;
        var maxPossibleRange := 65535 - startArrayIndex;
        var range := end - j;
        var leafEnd, next;
        if range > maxPossibleRange {
          leafEnd := 65535;
          next := j + maxPossibleRange + 1;
        } else {
          leafEnd := startArrayIndex + range;
          next := j + range + 1;
        }
        var bucket: Bucket := tree[p][startArrayIndex := Leaf(startArrayIndex, leafEnd, country)];
        tree := tree[p := bucket];
        InsertStep(t0, start, end, country, j, leafEnd, next, before, tree);
        j := next;
      }
      if start > end {
        InsertedEmpty(t0, Range(start, end, country));
      }
    }

    /** The line loop of loadData over already parsed input lines, in order. */
    method Build(ranges: seq<Range>)
      requires Valid()
      modifies this
      ensures Valid()
      ensures tree == InsertAll(old(tree), ranges)
    {
      var i := 0;
      while i < |ranges|
        invariant 0 <= i <= |ranges|
        invariant Valid()
        invariant tree == InsertAll(old(tree), ranges[..i])
      {
        var r := ranges[i];
        InsertRange(r.start, r.end, r.country);
        assert ranges[..i + 1][..i] == ranges[..i];
        i := i + 1;
      }
      assert ranges[..|ranges|] == ranges;
    }

    /**
     * lookup: finds the [a][b] bucket of a well-formed ip text and returns
     * the country of the first leaf, by ascending key, whose [begin, end]
     * contains c*256+d; None (null) when there is no such bucket or leaf.
     */
    method Lookup(ip: string) returns (r: Option<Country>)
      requires WellFormedIp(ip)
      ensures r == Find(tree, Ip2Long(ip))
    {
      var arr := Split(ip, '.');
      var a: Octet := DecimalValue(arr[0]);
      var b: Octet := DecimalValue(arr[1]);
      var index := DecimalValue(arr[2]) * 256 + DecimalValue(arr[3]);
      Ip2LongIsToLong(ip);
      if (a, b) in tree {
        var lookupArray := tree[(a, b)];
        var val := 0;
        while val < BLOCK
          invariant 0 <= val <= BLOCK
          invariant ScanFrom(lookupArray, index, val) == ScanFrom(lookupArray, index, 0)
        {
          if val in lookupArray && lookupArray[val].begin <= index && lookupArray[val].end >= index {
            return Some(lookupArray[val].country);
          }
          val := val + 1;
        }
        return None;
      }
      return None;
    }
  }

  // ---------------------------------------------------------------------
  // Proof of the jump loop

  lemma InsertedEmpty(t: Table, r: Range)
    requires r.start > r.end
    ensures Inserted(t, r) == t
  {
    assert SpannedPrefixes(r) == {};
  }

  /** Facts about the block arithmetic of one step of the jump loop. */
  lemma StepArithmetic(start: Address, end: Address, j: int, next: int)
    requires start <= j <= end
    requires j == start || j % BLOCK == 0
    requires next == (if end - j > 65535 - j % BLOCK then j - j % BLOCK + BLOCK else end + 1)
    ensures j < next <= end + 1
    ensures next == end + 1 || (next % BLOCK == 0 && next <= end)
    ensures (next - 1) / BLOCK == j / BLOCK
    ensures (next - 1) % BLOCK == (if next == end + 1 then end % BLOCK else 65535)
    ensures j > start ==> (j - 1) / BLOCK == j / BLOCK - 1 && (j - 1) % BLOCK == 65535
    ensures j > start ==> start / BLOCK < j / BLOCK
    ensures j == start % BLOCK + (j / BLOCK) * BLOCK || j % BLOCK == 0
    ensures KeyIn(Range(start, next - 1, ""), j / BLOCK) == j % BLOCK
  {
    if j > start {
      assert j % BLOCK == 0;
      assert start <= j - 1;
    }
  }

  /**
   * The state at the top of one iteration of the jump loop: j is start or
   * the first address of a block, the table holds the range up to j - 1,
   * and next is where the source's jump takes j.
   */
  ghost predicate StepPre(t0: Table, start: Address, end: Address, country: Country, j: Address, next: int, before: Table)
  {
    && start <= j <= end
    && (j == start || j % BLOCK == 0)
    && (j == start ==> before == t0)
    && (j > start ==> before == Inserted(t0, Range(start, j - 1, country)))
    && next == if end - j > 65535 - SubOf(j) then j + (65535 - SubOf(j)) + 1 else j + (end - j) + 1
  }

  /** One iteration of the jump loop moves the table from Inserted(.., j - 1) to Inserted(.., next - 1). */
  lemma InsertStep(t0: Table, start: Address, end: Address, country: Country, j: Address, leafEnd: int, next: int,
                   before: Table, after: Table)
    requires start <= j <= end
    requires j == start || j % BLOCK == 0
    requires WellFormedTable(t0)
    requires j == start ==> before == t0
    requires j > start ==> before == Inserted(t0, Range(start, j - 1, country))
    requires end - j > 65535 - SubOf(j) ==> leafEnd == 65535 && next == j + (65535 - SubOf(j)) + 1
    requires end - j <= 65535 - SubOf(j) ==> leafEnd == SubOf(j) + (end - j) && next == j + (end - j) + 1
    requires after == before[BlockOf(j) := (if BlockOf(j) in before then before[BlockOf(j)] else map[])
                          [SubOf(j) := Leaf(SubOf(j), leafEnd, country)]]
    ensures j < next <= end + 1
    ensures next == end + 1 || next % BLOCK == 0
    ensures WellFormedTable(after)
    ensures after == Inserted(t0, Range(start, next - 1, country))
  {
    BlockAndSub(j);
    StepArithmetic(start, end, j, next);
    var want := Inserted(t0, Range(start, next - 1, country));
    StepPointwise(t0, start, end, country, j, leafEnd, next, before, after);
    assert after == want;
    InsertedWellFormed(t0, Range(start, next - 1, country));
  }

  /** The table after the step and Inserted(.., next - 1) agree on every bucket. */
  lemma StepPointwise(t0: Table, start: Address, end: Address, country: Country, j: Address, leafEnd: int, next: int,
                      before: Table, after: Table)
    requires StepPre(t0, start, end, country, j, next, before)
    requires leafEnd == if end - j > 65535 - SubOf(j) then 65535 else SubOf(j) + (end - j)
    requires after == before[BlockOf(j) := (if BlockOf(j) in before then before[BlockOf(j)] else map[])
                          [SubOf(j) := Leaf(SubOf(j), leafEnd, country)]]
    ensures var want := Inserted(t0, Range(start, next - 1, country));
      forall q :: (q in want <==> q in after) && (q in want ==> want[q] == after[q])
  {
    var want := Inserted(t0, Range(start, next - 1, country));
    forall q
      ensures (q in want <==> q in after) && (q in want ==> want[q] == after[q])
    {
      if q == BlockOf(j) {
        StepAtBlock(t0, start, end, country, j, leafEnd, next, before);
      } else {
        BlockAndSub(j);
        PrefixOfBlockNumber(q);
        StepOffBlock(t0, start, end, country, j, next, before, q);
      }
    }
  }

  /** In the block of j, the step writes the piece of the range that begins at j. */
  lemma StepAtBlock(t0: Table, start: Address, end: Address, country: Country, j: Address, leafEnd: int, next: int,
                    before: Table)
    requires StepPre(t0, start, end, country, j, next, before)
    requires leafEnd == if end - j > 65535 - SubOf(j) then 65535 else SubOf(j) + (end - j)
    ensures var p := BlockOf(j); var want := Inserted(t0, Range(start, next - 1, country));
      p in want && want[p] == (if p in before then before[p] else map[])[SubOf(j) := Leaf(SubOf(j), leafEnd, country)]
  {
    BlockAndSub(j);
    StepArithmetic(start, end, j, next);
    var p := BlockOf(j);
    var n := j / BLOCK;
    var r' := Range(start, next - 1, country);
    InsertedAt(t0, r', p);
    assert Spans(r', n);
    assert Piece(r', n) == Leaf(SubOf(j), leafEnd, country);
    if j > start {
      InsertedAt(t0, Range(start, j - 1, country), p);
      assert !Spans(Range(start, j - 1, country), n);
    }
  }

  /** Outside the block of j, the step changes nothing: both prefixes of the range agree there. */
  lemma StepOffBlock(t0: Table, start: Address, end: Address, country: Country, j: Address, next: int,
                     before: Table, q: Prefix)
    requires StepPre(t0, start, end, country, j, next, before)
    requires BlockNumber(q) != j / BLOCK
    ensures var want := Inserted(t0, Range(start, next - 1, country));
      (q in want <==> q in before) && (q in want ==> want[q] == before[q])
  {
    BlockAndSub(j);
    StepArithmetic(start, end, j, next);
    var m := BlockNumber(q);
    var r' := Range(start, next - 1, country);
    InsertedAt(t0, r', q);
    if j > start {
      var r := Range(start, j - 1, country);
      InsertedAt(t0, r, q);
      assert Spans(r', m) <==> Spans(r, m);
      if Spans(r, m) {
        assert KeyIn(r', m) == KeyIn(r, m);
        assert Piece(r', m) == Piece(r, m);
      }
    } else {
      assert !Spans(r', m);
    }
  }

  /** Inserted, read one bucket at a time. */
  lemma InsertedAt(t: Table, r: Range, q: Prefix)
    ensures q in Inserted(t, r) <==> q in t || Spans(r, BlockNumber(q))
    ensures q in Inserted(t, r) ==>
      Inserted(t, r)[q] == (if Spans(r, BlockNumber(q)) then
                              (if q in t then t[q] else map[])[KeyIn(r, BlockNumber(q)) := Piece(r, BlockNumber(q))]
                            else t[q])
  {
    PrefixOfBlockNumber(q);
    if Spans(r, BlockNumber(q)) {
      assert q in SpannedPrefixes(r);
    }
  }

  // ---------------------------------------------------------------------
  // Properties of inserting one range

  /** Inserting keeps every leaf at the key of its begin, with begin <= end <= 65535. */
  lemma InsertedWellFormed(t: Table, r: Range)
    requires WellFormedTable(t)
    ensures WellFormedTable(Inserted(t, r))
  {
  }

  /** The piece of r in block n contains exactly the addresses of r in that block. */
  lemma PieceContains(r: Range, n: int, x: Address)
    requires Spans(r, n) && x / BLOCK == n
    ensures Contains(Piece(r, n), x % BLOCK) <==> InRange(r, x)
  {
  }

  /** The first sub-index of a piece is an address of its range. */
  lemma PieceBeginInRange(r: Range, n: int)
    requires Spans(r, n)
    ensures 0 <= n * BLOCK + KeyIn(r, n) < TWO_32
    ensures InRange(r, n * BLOCK + KeyIn(r, n))
  {
  }

  /** Every address of the range has, after insertion, a leaf in its bucket that contains it. */
  lemma InsertedCovers(t: Table, r: Range, x: Address)
    requires InRange(r, x)
    ensures var p := BlockOf(x); var k := KeyIn(r, x / BLOCK);
      p in Inserted(t, r) && k in Inserted(t, r)[p]
      && Inserted(t, r)[p][k].country == r.country && Contains(Inserted(t, r)[p][k], SubOf(x))
  {
    BlockAndSub(x);
    PrefixOfBlockNumber(BlockOf(x));
    assert BlockOf(x) in SpannedPrefixes(r);
    PieceContains(r, x / BLOCK, x);
  }

  /**
   * Last write wins, and only there: the leaf at r's key in a block r meets
   * is r's piece; every other key of every bucket, and every bucket of a
   * block r does not meet, keeps what it had.
   */
  lemma InsertedFrame(t: Table, r: Range, p: Prefix, k: SubIndex)
    ensures p in Inserted(t, r) <==> p in t || Spans(r, BlockNumber(p))
    ensures Spans(r, BlockNumber(p)) ==>
      KeyIn(r, BlockNumber(p)) in Inserted(t, r)[p]
      && Inserted(t, r)[p][KeyIn(r, BlockNumber(p))] == Piece(r, BlockNumber(p))
    ensures p in t && !Spans(r, BlockNumber(p)) ==> Inserted(t, r)[p] == t[p]
    ensures p in t && k in t[p] && k != KeyIn(r, BlockNumber(p)) ==>
      k in Inserted(t, r)[p] && Inserted(t, r)[p][k] == t[p][k]
  {
    PrefixOfBlockNumber(p);
    if Spans(r, BlockNumber(p)) {
      assert p in SpannedPrefixes(r);
    }
  }

  /** A range inserted into the empty tree is found exactly at its own addresses, endpoints included. */
  lemma FindAfterSingleInsert(r: Range, x: Address)
    ensures Find(Inserted(map[], r), x) == if InRange(r, x) then Some(r.country) else None
  {
    var t := Inserted(map[], r);
    var p := BlockOf(x);
    BlockAndSub(x);
    InsertedAt(map[], r, p);
    if p in t {
      var n := x / BLOCK;
      assert t[p] == map[KeyIn(r, n) := Piece(r, n)];
      PieceContains(r, n, x);
      ScanFromFirst(t[p], SubOf(x), 0);
      var k := KeyIn(r, n);
      if InRange(r, x) {
        assert k in t[p] && Contains(t[p][k], SubOf(x));
      } else {
        assert forall k' :: k' in t[p] ==> k' == k;
      }
    }
  }

  // ---------------------------------------------------------------------
  // Building from disjoint ranges: lookup answers exactly the owning range

  /** No address belongs to two of the ranges (the input file is a partition of part of the address space). */
  ghost predicate Disjoint(rs: seq<Range>)
  {
    forall i, j :: 0 <= i < j < |rs| ==> rs[i].end < rs[j].start || rs[j].end < rs[i].start
  }

  /** Leaf l is the piece, in block n, of one of the ranges. */
  ghost predicate IsPieceOf(l: Leaf, rs: seq<Range>, n: int)
  {
    exists i :: 0 <= i < |rs| && Spans(rs[i], n) && l == Piece(rs[i], n)
  }

  /** Every leaf of the table is a piece of one of the ranges. */
  ghost predicate LeavesFromRanges(t: Table, rs: seq<Range>)
  {
    forall p, k :: p in t && k in t[p] ==> IsPieceOf(t[p][k], rs, BlockNumber(p))
  }

  /** The table holds r's piece for block n, at r's key there. */
  ghost predicate HasPiece(t: Table, r: Range, n: int)
  {
    && 0 <= n < BLOCK
    && PrefixOfBlock(n) in t
    && KeyIn(r, n) in t[PrefixOfBlock(n)]
    && t[PrefixOfBlock(n)][KeyIn(r, n)] == Piece(r, n)
  }

  /** Every range still has its piece in every block it meets. */
  ghost predicate RangesPresent(t: Table, rs: seq<Range>)
  {
    forall i, n :: 0 <= i < |rs| && Spans(rs[i], n) ==> HasPiece(t, rs[i], n)
  }

  /** Adding a range disjoint from the earlier ones overwrites none of their leaves. */
  lemma InsertKeepsPieces(t: Table, rs: seq<Range>, r: Range)
    requires LeavesFromRanges(t, rs) && RangesPresent(t, rs)
    requires Disjoint(rs + [r])
    ensures LeavesFromRanges(Inserted(t, r), rs + [r]) && RangesPresent(Inserted(t, r), rs + [r])
  {
    var t' := Inserted(t, r);
    var rs' := rs + [r];
    assert rs'[|rs|] == r;
    forall p, k | p in t' && k in t'[p]
      ensures IsPieceOf(t'[p][k], rs', BlockNumber(p))
    {
      var m := BlockNumber(p);
      InsertedAt(t, r, p);
      if Spans(r, m) && k == KeyIn(r, m) {
        assert Spans(rs'[|rs|], m) && t'[p][k] == Piece(rs'[|rs|], m);
      } else {
        assert k in t[p] && t'[p][k] == t[p][k];
        var i :| 0 <= i < |rs| && Spans(rs[i], m) && t[p][k] == Piece(rs[i], m);
        assert rs'[i] == rs[i];
      }
    }
    forall i, n | 0 <= i < |rs'| && Spans(rs'[i], n)
      ensures HasPiece(t', rs'[i], n)
    {
      var p := PrefixOfBlock(n);
      InsertedAt(t, r, p);
      if i < |rs| {
        assert rs'[i] == rs[i];
        assert HasPiece(t, rs[i], n);
        if Spans(r, n) {
          PieceBeginInRange(r, n);
          PieceBeginInRange(rs[i], n);
          assert rs[i].end < r.start || r.end < rs[i].start by {
            assert rs'[i] == rs[i] && rs'[|rs|] == r;
          }
          assert KeyIn(r, n) != KeyIn(rs[i], n);
        }
      }
    }
  }

  /** The table built from disjoint ranges holds exactly their pieces. */
  lemma {:induction false} BuildKeepsPieces(rs: seq<Range>)
    requires Disjoint(rs)
    ensures LeavesFromRanges(InsertAll(map[], rs), rs) && RangesPresent(InsertAll(map[], rs), rs)
    decreases |rs|
  {
    if rs != [] {
      var front := rs[..|rs| - 1];
      assert front + [rs[|rs| - 1]] == rs;
      BuildKeepsPieces(front);
      InsertKeepsPieces(InsertAll(map[], front), front, rs[|rs| - 1]);
    }
  }

  /**
   * Lookup after loading disjoint ranges answers the country of the range
   * that holds the address, both endpoints included, and null for an
   * address that no range holds.
   */
  lemma FindAfterBuild(rs: seq<Range>, x: Address)
    requires Disjoint(rs)
    ensures forall i :: 0 <= i < |rs| && InRange(rs[i], x) ==> Find(InsertAll(map[], rs), x) == Some(rs[i].country)
    ensures (forall i :: 0 <= i < |rs| ==> !InRange(rs[i], x)) ==> Find(InsertAll(map[], rs), x) == None
  {
    var t := InsertAll(map[], rs);
    BuildKeepsPieces(rs);
    BlockAndSub(x);
    var p := BlockOf(x);
    var n := x / BLOCK;
    if p in t {
      // a leaf that contains x belongs to a range that holds x
      forall k | 0 <= k < BLOCK && k in t[p] && Contains(t[p][k], SubOf(x))
        ensures exists i :: 0 <= i < |rs| && InRange(rs[i], x) && t[p][k].country == rs[i].country
      {
        var i :| 0 <= i < |rs| && Spans(rs[i], n) && t[p][k] == Piece(rs[i], n);
        PieceContains(rs[i], n, x);
      }
      ScanFromFirst(t[p], SubOf(x), 0);
    }
    forall i | 0 <= i < |rs| && InRange(rs[i], x)
      ensures Find(t, x) == Some(rs[i].country)
    {
      assert Spans(rs[i], n);
      assert HasPiece(t, rs[i], n);
      PieceContains(rs[i], n, x);
      var k := KeyIn(rs[i], n);
      assert Contains(t[p][k], SubOf(x));
      forall j | 0 <= j < |rs| && InRange(rs[j], x)
        ensures j == i
      {
        OwnerUnique(rs, i, j, x);
      }
    }
  }

  /** Among disjoint ranges at most one holds a given address. */
  lemma OwnerUnique(rs: seq<Range>, i: int, j: int, x: int)
    requires Disjoint(rs)
    requires 0 <= i < |rs| && 0 <= j < |rs| && InRange(rs[i], x) && InRange(rs[j], x)
    ensures i == j
  {
  }

  // ---------------------------------------------------------------------
  // Overlapping input: lookup answers the containing leaf with the smallest
  // key, and load order only decides between two pieces at the same key

  lemma InsertAllSnoc(t: Table, rs: seq<Range>, r: Range)
    ensures InsertAll(t, rs + [r]) == Inserted(InsertAll(t, rs), r)
  {
    assert (rs + [r])[..|rs|] == rs;
  }

  /** Ranges a and b and address x all lie in one /16 block. */
  predicate InOneBlock(a: Range, b: Range, x: int)
  {
    && a.start <= a.end && b.start <= b.end
    && a.start / BLOCK == a.end / BLOCK == b.start / BLOCK == b.end / BLOCK == x / BLOCK
  }

  /** The leaf a range inside one block leaves there: its own bounds, as sub-indices. */
  function LocalLeaf(r: Range): Leaf
  {
    Leaf(r.start % BLOCK, r.end % BLOCK, r.country)
  }

  /** Inside one block, a range's local leaf contains x's sub-index exactly when the range holds x. */
  lemma LocalLeafContains(r: Range, x: int)
    requires r.start / BLOCK == r.end / BLOCK == x / BLOCK
    ensures Contains(LocalLeaf(r), x % BLOCK) <==> InRange(r, x)
  {
  }

  /** Inside one block, sub-indices keep the order of the addresses. */
  lemma LocalOrder(y: int, z: int)
    requires y / BLOCK == z / BLOCK && y < z
    ensures y % BLOCK < z % BLOCK
  {
  }

  /**
   * Two ranges inside the block of x, loaded one after the other into a table
   * without a bucket for that block, leave the bucket with their two leaves.
   */
  lemma TwoRangesInBlock(t: Table, a: Range, b: Range, x: Address)
    requires InOneBlock(a, b, x) && BlockOf(x) !in t
    ensures var t2 := InsertAll(t, [a, b]); var p := BlockOf(x);
      p in t2 && t2[p] == map[a.start % BLOCK := LocalLeaf(a)][b.start % BLOCK := LocalLeaf(b)]
  {
    var p := BlockOf(x);
    BlockAndSub(x);
    InsertAllSnoc(t, [], a);
    assert [] + [a] == [a];
    var t1 := Inserted(t, a);
    InsertAllSnoc(t, [a], b);
    assert [a] + [b] == [a, b];
    InsertedAt(t, a, p);
    InsertedAt(t1, b, p);
  }

  /** Lookup of x after the two loads is the scan of that two-leaf bucket. */
  lemma FindInBlock(t: Table, a: Range, b: Range, x: Address)
    requires InOneBlock(a, b, x) && BlockOf(x) !in t
    ensures Find(InsertAll(t, [a, b]), x)
         == ScanFrom(map[a.start % BLOCK := LocalLeaf(a)][b.start % BLOCK := LocalLeaf(b)], x % BLOCK, 0)
  {
    TwoRangesInBlock(t, a, b, x);
    BlockAndSub(x);
  }

  /**
   * A later range that starts where an earlier one starts replaces the
   * earlier leaf: its addresses answer the later country, and the rest of
   * the earlier range in that block is lost.
   */
  lemma SameStartOverwrites(t: Table, a: Range, b: Range, x: Address)
    requires InOneBlock(a, b, x) && BlockOf(x) !in t && a.start == b.start
    ensures Find(InsertAll(t, [a, b]), x) == if InRange(b, x) then Some(b.country) else None
  {
    FindInBlock(t, a, b, x);
    var k: SubIndex := b.start % BLOCK;
    assert map[a.start % BLOCK := LocalLeaf(a)][k := LocalLeaf(b)] == map[k := LocalLeaf(b)];
    ScanSingle(k, LocalLeaf(b), x % BLOCK, 0);
    LocalLeafContains(b, x);
  }

  /**
   * A later range that starts inside an earlier one in the same block does
   * not win at lookup: the earlier leaf has the smaller key and is met first.
   */
  lemma NestedLaterRangeLoses(t: Table, a: Range, b: Range, x: Address)
    requires InOneBlock(a, b, x) && BlockOf(x) !in t && a.start < b.start && InRange(a, x)
    ensures Find(InsertAll(t, [a, b]), x) == Some(a.country)
  {
    FindInBlock(t, a, b, x);
    var m := map[a.start % BLOCK := LocalLeaf(a)][b.start % BLOCK := LocalLeaf(b)];
    LocalLeafContains(a, x);
    LocalOrder(a.start, b.start);
    assert m[a.start % BLOCK] == LocalLeaf(a);
    ScanFromSmallestKey(m, a.start % BLOCK, x % BLOCK);
  }

  /**
   * A later range that starts before an earlier one in the same block wins
   * wherever it holds the address, even though it writes a different key:
   * its leaf has the smaller key.
   */
  lemma LaterRangeStartingFirstWins(t: Table, a: Range, b: Range, x: Address)
    requires InOneBlock(a, b, x) && BlockOf(x) !in t && b.start < a.start && InRange(b, x)
    ensures Find(InsertAll(t, [a, b]), x) == Some(b.country)
  {
    FindInBlock(t, a, b, x);
    var m := map[a.start % BLOCK := LocalLeaf(a)][b.start % BLOCK := LocalLeaf(b)];
    LocalLeafContains(b, x);
    LocalOrder(b.start, a.start);
    ScanFromSmallestKey(m, b.start % BLOCK, x % BLOCK);
  }

  /**
   * Two ranges whose pieces in block n have the same key: the later piece
   * replaces the earlier one there, whichever range started where. This is
   * the only way load order reaches the answer of a lookup.
   */
  lemma SameKeyLaterWins(t: Table, a: Range, b: Range, n: int)
    requires 0 <= n < 65536
    requires Spans(a, n) && Spans(b, n) && KeyIn(a, n) == KeyIn(b, n)
    ensures var t2 := InsertAll(t, [a, b]); var p := PrefixOfBlock(n);
      p in t2 && KeyIn(b, n) in t2[p] && t2[p][KeyIn(b, n)] == Piece(b, n)
  {
    var p := PrefixOfBlock(n);
    InsertAllSnoc(t, [], a);
    assert [] + [a] == [a];
    InsertAllSnoc(t, [a], b);
    assert [a] + [b] == [a, b];
    InsertedFrame(Inserted(t, a), b, p, KeyIn(b, n));
  }

  /**
   * Two ranges that both continue into block n from an earlier block both
   * write key 0 there: the later piece replaces the earlier one, whatever
   * their starts.
   */
  lemma ContinuingRangesShareKeyZero(t: Table, a: Range, b: Range, n: int)
    requires 0 <= n < 65536
    requires Spans(a, n) && Spans(b, n) && a.start / BLOCK < n && b.start / BLOCK < n
    ensures var t2 := InsertAll(t, [a, b]); var p := PrefixOfBlock(n);
      p in t2 && 0 in t2[p] && t2[p][0] == Piece(b, n)
  {
    SameKeyLaterWins(t, a, b, n);
  }

  /** A containing leaf with no key below it is the one the scan answers. */
  lemma ScanFromSmallestKey(bucket: Bucket, k: SubIndex, index: int)
    requires k in bucket && Contains(bucket[k], index)
    requires forall k' :: 0 <= k' < k ==> k' !in bucket
    ensures ScanFrom(bucket, index, 0) == Some(bucket[k].country)
  {
    ScanSkipsAbsent(bucket, index, 0, k);
  }

  /** The scan of a bucket with a single leaf at key k0, from any key up to k0: that leaf's answer. */
  lemma ScanSingle(k0: SubIndex, l: Leaf, index: int, k: int)
    requires 0 <= k <= k0
    ensures ScanFrom(map[k0 := l], index, k) == if Contains(l, index) then Some(l.country) else None
  {
    ScanSkipsAbsent(map[k0 := l], index, k, k0);
    ScanSkipsAbsent(map[k0 := l], index, k0 + 1, BLOCK);
  }

  /** The scan passes over keys the bucket does not have. */
  lemma {:induction false} ScanSkipsAbsent(bucket: Bucket, index: int, k: int, k1: int)
    requires 0 <= k <= k1 <= BLOCK
    requires forall k' :: k <= k' < k1 ==> k' !in bucket
    ensures ScanFrom(bucket, index, k) == ScanFrom(bucket, index, k1)
    decreases k1 - k
  {
    if k < k1 {
      ScanSkipsAbsent(bucket, index, k + 1, k1);
    }
  }

  // ---------------------------------------------------------------------
  // A client of the table

  /**
   * With one stand-in range 87.229.128.0 - 87.229.191.255 owned by RU
   * loaded, lookup of 87.229.134.24 answers RU and lookup of 1.1.1.1
   * answers null.
   */
  method LookupScenario() returns (hit: Option<Country>, miss: Option<Country>)
    ensures hit == Some("RU") && miss == None
  {
    var ru := Range(1474658304, 1474674687, "RU");
    var g := new GeoTable();
    g.Build([ru]);
    InsertAllSnoc(map[], [], ru);
    assert [] + [ru] == [ru];
    KnownValues();
    FindAfterSingleInsert(ru, 1474659864);
    FindAfterSingleInsert(ru, 16843009);
    hit := g.Lookup("87.229.134.24");
    miss := g.Lookup("1.1.1.1");
  }
}
