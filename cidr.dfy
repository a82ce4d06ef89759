/** The IPv4 range-to-CIDR decomposition that the emitter obtains from
    `ipaddress.summarize_address_range` (bin/get_rirstats.py:234): the
    greedy walk that, from the current address, takes the largest aligned
    block that does not pass the last address of the range. */
module Cidr {
  import opened Text
  import opened Numbers
  import opened Ipv4

  const Bits: nat := 32

  /** A block of all 32 host bits is the whole address space. */
  lemma Pow2Bits()
    ensures Pow2(Bits) == AddressSpace
  {
    assert Pow2(8) == 256 by {
      assert Pow2(1) == 2 && Pow2(2) == 4 && Pow2(3) == 8 && Pow2(4) == 16;
      assert Pow2(5) == 32 && Pow2(6) == 64 && Pow2(7) == 128;
    }
    Pow2Add(8, 8);
    Pow2Add(16, 16);
  }

  /** A CIDR block `network/prefixLength`. */
  datatype Block = Block(network: Address, prefixLength: nat)

  function Size(b: Block): (n: nat)
    requires b.prefixLength <= Bits
    ensures n >= 1
  {
    Pow2(Bits - b.prefixLength)
  }

  /** One past the last address of the block. */
  function End(b: Block): nat
    requires b.prefixLength <= Bits
  {
    b.network + Size(b)
  }

  predicate Contains(b: Block, a: int)
    requires b.prefixLength <= Bits
  {
    b.network <= a < End(b)
  }

  /** A well-formed network: its address is a multiple of its size. */
  predicate IsAligned(b: Block) {
    b.prefixLength <= Bits && b.network % Size(b) == 0
  }

  /** `blocks`, in order, cover `[lo, hi)` end to end: each starts where the
      previous one ends, the first at `lo` and the last ends at `hi`. */
  predicate Tiles(blocks: seq<Block>, lo: int, hi: int)
    decreases |blocks|
  {
    if blocks == [] then lo == hi
    else blocks[0].prefixLength <= Bits && blocks[0].network == lo && Tiles(blocks[1..], End(blocks[0]), hi)
  }

  /** The block could not have been twice as large: doubling it either breaks
      its alignment or carries it past `last`. */
  predicate IsMaximal(b: Block, last: int)
    requires b.prefixLength <= Bits
  {
    b.prefixLength == 0 || b.network % (2 * Size(b)) != 0 || b.network + 2 * Size(b) > last + 1
  }

  /** `_count_righthand_zero_bits(n, width)`: how many low-order bits of `n`
      are zero, at most `width`. */
  function TrailingZeros(n: nat, width: nat): (t: nat)
    ensures t <= width
  {
    if width == 0 || n % 2 == 1 then 0 else 1 + TrailingZeros(n / 2, width - 1)
  }

  /** `2^t` divides `n` for `t` the count of trailing zeros, and `2^(t+1)`
      does not unless the count was capped at `width`. */
  lemma {:induction false} TrailingZerosDivide(n: nat, width: nat)
    ensures n % Pow2(TrailingZeros(n, width)) == 0
    ensures TrailingZeros(n, width) < width ==> n % Pow2(TrailingZeros(n, width) + 1) != 0
  {
    if width > 0 && n % 2 == 0 {
      var t := TrailingZeros(n / 2, width - 1);
      TrailingZerosDivide(n / 2, width - 1);
      HalfMod(n, Pow2(t));
      if t + 1 < width {
        HalfMod(n, Pow2(t + 1));
      }
    }
  }

  /** `n.bit_length()`. */
  function BitLength(n: nat): (k: nat)
    ensures n >= 1 ==> k >= 1 && Pow2(k - 1) <= n < Pow2(k)
    ensures n == 0 ==> k == 0
  {
    if n == 0 then 0 else 1 + BitLength(n / 2)
  }

  /** For an even `n`, `n mod 2p` is twice `(n / 2) mod p`. */
  lemma HalfMod(n: nat, p: nat)
    requires n % 2 == 0 && p >= 1
    ensures n % (2 * p) == 2 * ((n / 2) % p)
  {
    var q, r := (n / 2) / p, (n / 2) % p;
    assert n == q * (2 * p) + 2 * r;
    DivModUnique(n, 2 * p, q, 2 * r);
  }

  /** Quotient and remainder are unique. */
  lemma DivModUnique(n: int, d: int, q: int, r: int)
    requires d > 0 && n == q * d + r && 0 <= r < d
    ensures n / d == q && n % d == r
  {
    var q', r' := n / d, n % d;
    assert (q - q') * d == r' - r;
    if q > q' {
      assert (q - q') * d >= d by { MulAtLeast(q - q', d); }
    } else if q < q' {
      assert (q' - q) * d >= d by { MulAtLeast(q' - q, d); }
    }
  }

  /** A multiple of `2^t` is a multiple of every smaller power of two. */
  lemma {:induction false} ModPow2Weaken(n: nat, t: nat, k: nat)
    requires n % Pow2(t) == 0 && k <= t
    ensures n % Pow2(k) == 0
  {
    if k < t {
      var q := n / Pow2(t);
      assert n == (2 * q) * Pow2(t - 1) + 0;
      DivModUnique(n, Pow2(t - 1), 2 * q, 0);
      ModPow2Weaken(n, t - 1, k);
    }
  }

  /** The number of host bits of the next block from `cur`: no more than the
      trailing zeros of `cur` and no more than the remaining count allows. */
  function BlockBits(cur: nat, last: nat): (k: nat)
    requires cur <= last
    ensures k <= Bits
  {
    var tz := TrailingZeros(cur, Bits);
    var fit := BitLength(last - cur + 1) - 1;
    if tz <= fit then tz else fit
  }

  /** The next block fits in what is left of the range. */
  lemma BlockFits(cur: nat, last: nat)
    requires cur <= last
    ensures cur + Pow2(BlockBits(cur, last)) <= last + 1
  {
    Pow2Monotone(BlockBits(cur, last), BitLength(last - cur + 1) - 1);
  }

  /** The next block is aligned and could not be any larger. */
  lemma BlockBitsFacts(cur: nat, last: nat)
    requires cur <= last
    ensures var k := BlockBits(cur, last);
            cur % Pow2(k) == 0
            && (k == Bits || cur % Pow2(k + 1) != 0 || cur + Pow2(k + 1) > last + 1)
  {
    var tz := TrailingZeros(cur, Bits);
    var k := BlockBits(cur, last);
    TrailingZerosDivide(cur, Bits);
    ModPow2Weaken(cur, tz, k);
  }

  /** `summarize_address_range(first, last)` restricted to `first <= last + 1`:
      the greedy sequence of blocks from `first` up to `last`. */
  function Summarize(first: nat, last: Address): (r: seq<Block>)
    requires first <= last + 1
    ensures first <= last ==> |r| >= 1 && r[0].network == first
    ensures forall i :: 0 <= i < |r| ==> first <= r[i].network <= last && r[i].prefixLength <= Bits
    decreases last + 1 - first
  {
    if first > last then []
    else [Block(first, Bits - BlockBits(first, last))] + Summarize(NextStart(first, last), last)
  }

  /** Where the walk goes on from `first`: the end of the block there. */
  function NextStart(first: nat, last: Address): (next: nat)
    requires first <= last
    ensures first < next <= last + 1
  {
    BlockFits(first, last);
    first + Pow2(BlockBits(first, last))
  }

  /** The greedy blocks tile the range. */
  lemma {:induction false} SummarizeTiles(first: nat, last: Address)
    requires first <= last + 1
    ensures Tiles(Summarize(first, last), first, last + 1)
    decreases last + 1 - first
  {
    if first <= last {
      var k := BlockBits(first, last);
      var next := first + Pow2(k);
      SummarizeStep(first, last, k, next);
      var b := Block(first, Bits - k);
      var rest := Summarize(next, last);
      SummarizeTiles(next, last);
      assert Size(b) == Pow2(k);
      assert ([b] + rest)[1..] == rest;
    }
  }

  /** Each greedy block is aligned and could not have been any larger. */
  lemma {:induction false} SummarizeGreedy(first: nat, last: Address)
    requires first <= last + 1
    ensures forall b :: b in Summarize(first, last) ==> IsAligned(b) && IsMaximal(b, last)
    decreases last + 1 - first
  {
    if first <= last {
      var k := BlockBits(first, last);
      var next := first + Pow2(k);
      GreedyHead(first, last);
      SummarizeStep(first, last, k, next);
      var b := Block(first, Bits - k);
      var rest := Summarize(next, last);
      SummarizeGreedy(next, last);
      forall x | x in [b] + rest ensures IsAligned(x) && IsMaximal(x, last) {
        if x != b {
          assert x in rest;
        }
      }
    }
  }

  /** The block the walk takes at `first` is aligned and cannot be doubled. */
  lemma GreedyHead(first: nat, last: Address)
    requires first <= last
    ensures var b := Block(first, Bits - BlockBits(first, last)); IsAligned(b) && IsMaximal(b, last)
  {
    var k := BlockBits(first, last);
    var b := Block(first, Bits - k);
    BlockBitsFacts(first, last);
    assert Size(b) == Pow2(k) && Pow2(k + 1) == 2 * Pow2(k);
  }

  /** Sum of the block sizes. */
  function TotalSize(blocks: seq<Block>): nat
    requires forall b :: b in blocks ==> b.prefixLength <= Bits
  {
    if blocks == [] then 0 else Size(blocks[0]) + TotalSize(blocks[1..])
  }

  /** Tiling blocks hold exactly `hi - lo` addresses between them. */
  lemma {:induction false} TilesSize(blocks: seq<Block>, lo: int, hi: int)
    requires Tiles(blocks, lo, hi)
    ensures forall b :: b in blocks ==> b.prefixLength <= Bits
    ensures TotalSize(blocks) == hi - lo
  {
    if blocks != [] {
      TilesSize(blocks[1..], End(blocks[0]), hi);
    }
  }

  /** Tiling blocks are in ascending order and pairwise disjoint: each
      ends no later than any later one starts. */
  lemma {:induction false} TilesAscending(blocks: seq<Block>, lo: int, hi: int)
    requires Tiles(blocks, lo, hi)
    ensures forall i :: 0 <= i < |blocks| ==> blocks[i].prefixLength <= Bits && lo <= blocks[i].network
    ensures forall i, j :: 0 <= i < j < |blocks| ==> End(blocks[i]) <= blocks[j].network
    ensures forall i :: 0 <= i < |blocks| ==> End(blocks[i]) <= hi
  {
    if blocks != [] {
      TilesAscending(blocks[1..], End(blocks[0]), hi);
      assert forall j :: 1 <= j < |blocks| ==> blocks[j] == blocks[1..][j - 1];
    }
  }

  /** Tiling blocks cover `[lo, hi)` exactly: an address is in some block if
      and only if it is in the range. */
  lemma {:induction false} TilesCover(blocks: seq<Block>, lo: int, hi: int, a: int)
    requires Tiles(blocks, lo, hi)
    ensures forall i :: 0 <= i < |blocks| ==> blocks[i].prefixLength <= Bits
    ensures lo <= a < hi <==> exists i :: 0 <= i < |blocks| && Contains(blocks[i], a)
  {
    TilesAscending(blocks, lo, hi);
    if blocks != [] {
      TilesCover(blocks[1..], End(blocks[0]), hi, a);
      if End(blocks[0]) <= a < hi {
        var i :| 0 <= i < |blocks[1..]| && Contains(blocks[1..][i], a);
        assert Contains(blocks[i + 1], a);
      }
      if exists i :: 0 <= i < |blocks| && Contains(blocks[i], a) {
        var i :| 0 <= i < |blocks| && Contains(blocks[i], a);
        if i > 0 {
          assert Contains(blocks[1..][i - 1], a);
        }
      }
    }
  }

  /** `ipaddress.summarize_address_range(first, last)`: the greedy walk, which
      yields `Summarize(first, last)`; `SummarizeFacts` shows those blocks are
      a greedy cover of the range. */
  method SummarizeAddressRange(first: Address, last: Address) returns (blocks: seq<Block>)
    requires first <= last
    ensures blocks == Summarize(first, last)
  {
    blocks := [];
    var cur: nat := first;
    while cur <= last
      invariant first <= cur <= last + 1
      invariant blocks + Summarize(cur, last) == Summarize(first, last)
      decreases last + 1 - cur
    {
      var nbits := BlockBits(cur, last);
      var b := Block(cur, Bits - nbits);
      var next := cur + Pow2(nbits);
      SummarizeStep(cur, last, nbits, next);
      assert blocks + Summarize(cur, last) == (blocks + [b]) + Summarize(next, last);
      blocks := blocks + [b];
      cur := next;
      if cur - 1 == AddressSpace - 1 {
        break;
      }
    }
    assert blocks == Summarize(first, last);
  }

  /** `blocks` tile `[first, last]` (so they are ascending and disjoint and
      cover exactly that range), their sizes add up to the count, and each is
      aligned and as large as the greedy walk allows. */
  predicate IsGreedyCover(blocks: seq<Block>, first: int, last: int) {
    |blocks| >= 1 && blocks[0].network == first
    && Tiles(blocks, first, last + 1)
    && (forall b :: b in blocks ==> IsAligned(b) && IsMaximal(b, last))
    && TotalSize(blocks) == last - first + 1
  }

  /** The greedy blocks of a non-empty range are a greedy cover of it. */
  lemma SummarizeFacts(first: Address, last: Address)
    requires first <= last
    ensures IsGreedyCover(Summarize(first, last), first, last)
  {
    var blocks := Summarize(first, last);
    SummarizeTiles(first, last);
    SummarizeGreedy(first, last);
    TilesSize(blocks, first, last + 1);
  }

  /** One step of the greedy walk: the block at `cur`, then the walk from
      `next`, where the block ends. */
  lemma SummarizeStep(cur: nat, last: Address, k: nat, next: nat)
    requires cur <= last && k == BlockBits(cur, last) && next == cur + Pow2(k)
    ensures next <= last + 1
    ensures Summarize(cur, last) == [Block(cur, Bits - k)] + Summarize(next, last)
  {
    assert next == NextStart(cur, last);
  }

  /** `str(IPv4Network)`: `network/prefixLength`. */
  function FormatBlock(b: Block): string {
    FormatAddress(b.network) + "/" + NatToString(b.prefixLength)
  }
  /** The text of a block is made of digits, dots and one slash. */
  lemma FormatBlockAvoids(b: Block, c: char)
    requires !IsDigit(c) && c != '.' && c != '/'
    ensures c !in FormatBlock(b)
  {
    var o := OctetTexts(b.network);
    JoinAvoids(o, '.', c);
    assert c !in NatToString(b.prefixLength);
  }

}
