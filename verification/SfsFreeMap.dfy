/** The free map of an image: one bit for every block, set when the block is free (lab8/tools/mksfs.c). */
module SfsFreeMap {
  import opened SfsImage

  const WORDS: nat := 1024                 // 32-bit words in a block

  predicate Bit(w: bv32, k: nat)
    requires k < 32
  {
    (w >> k) & 1 == 1
  }

  /** Bit x of a block of words. */
  predicate BitAt(words: seq<bv32>, x: nat) {
    x / 32 < |words| && Bit(words[x / 32], x % 32)
  }

  lemma SetBits(w: bv32, a: bv6, b: bv6)
    requires a < 32 && b < 32
    ensures ((w | ((1 as bv32) << a)) >> b) & 1 == 1 <==> a == b || (w >> b) & 1 == 1
  {
  }

  lemma Distinct(a: nat, b: nat)
    requires a < 32 && b < 32
    ensures (a as bv6) < 32 && (b as bv6) < 32 && (a as bv6 == b as bv6 <==> a == b)
  {
    assert (a as bv6) as nat == a && (b as bv6) as nat == b;
  }

  function WithBit(w: bv32, a: nat): bv32
    requires a < 32
  {
    w | (1 << a)
  }

  lemma SetBit(w: bv32, a: nat, b: nat)
    requires a < 32 && b < 32
    ensures Bit(WithBit(w, a), b) <==> a == b || Bit(w, b)
  {
    Distinct(a, b);
    SetBits(w, a as bv6, b as bv6);
  }

  /** Bits count from the lowest. */
  lemma LowestFirst(w: bv32)
    ensures Bit(w, 0) <==> w & 1 != 0
    ensures Bit(w, 1) <==> w & 2 != 0
    ensures Bit(w, 7) <==> w & 0x80 != 0
    ensures Bit(w, 8) <==> w & 0x100 != 0
    ensures Bit(w, 16) <==> w & 0x1_0000 != 0
    ensures Bit(w, 31) <==> w & 0x8000_0000 != 0
  {
  }

  /** Setting bit j sets that bit and no other. */
  lemma SetBitAt(words: seq<bv32>, j: nat, x: nat)
    requires j / 32 < |words|
    ensures BitAt(words[j / 32 := WithBit(words[j / 32], j % 32)], x) <==> x == j || BitAt(words, x)
  {
    hide Bit, WithBit;
    SamePlace(j, x);
    if x / 32 == j / 32 {
      SetBit(words[j / 32], j % 32, x % 32);
    }
  }

  lemma SamePlace(j: nat, x: nat)
    ensures x == j <==> x / 32 == j / 32 && x % 32 == j % 32
  {
  }

  lemma NoBits(words: seq<bv32>, x: nat)
    requires forall k | 0 <= k < |words| :: words[k] == 0
    ensures !BitAt(words, x)
  {
  }

  /** The bits of one block: from start up to end. */
  ghost predicate Range(words: seq<bv32>, start: nat, end: nat) {
    |words| == WORDS && forall x | 0 <= x < SFS_BLKBITS :: BitAt(words, x) <==> start <= x < end
  }

  /** The buffer of close_sfs for the blocks from i on. */
  method MapBlock(i: nat, ninos: nat, nextIno: nat) returns (words: seq<bv32>)
    requires i < ninos
    ensures |words| == WORDS && forall x | 0 <= x < SFS_BLKBITS :: BitAt(words, x) <==> nextIno <= i + x < ninos
  {
    var buffer := new bv32[WORDS](_ => 0);
    var start, end := SFS_BLKBITS, SFS_BLKBITS;
    if i + SFS_BLKBITS > nextIno {
      start := 0;
      if i < nextIno {
        start := nextIno - i;
      }
      if i + SFS_BLKBITS > ninos {
        end := ninos - i;
      }
      forall x: nat | x < SFS_BLKBITS ensures !BitAt(buffer[..], x) {
        NoBits(buffer[..], x);
      }
      var j := start;
      while j < end
        invariant start <= j && (if start < end then j <= end else j == start) && Range(buffer[..], start, j)
        modifies buffer
      {
        ghost var before := buffer[..];
        buffer[j / 32] := WithBit(buffer[j / 32], j % 32);
        assert buffer[..] == before[j / 32 := WithBit(before[j / 32], j % 32)];
        forall x: nat | x < SFS_BLKBITS ensures BitAt(buffer[..], x) <==> start <= x < j + 1 {
          SetBitAt(before, j, x);
        }
        j := j + 1;
      }
    } else {
      forall x: nat | x < SFS_BLKBITS ensures !BitAt(buffer[..], x) {
        NoBits(buffer[..], x);
      }
    }
    words := buffer[..];
  }

  /** The free map as one sequence of bits, over its blocks. */
  predicate MapBit(blocks: seq<seq<bv32>>, b: nat) {
    b / SFS_BLKBITS < |blocks| && BitAt(blocks[b / SFS_BLKBITS], b % SFS_BLKBITS)
  }

  /** How many of the first n bits are set. */
  ghost function Popcount(blocks: seq<seq<bv32>>, n: nat): nat {
    if n == 0 then 0 else Popcount(blocks, n - 1) + if MapBit(blocks, n - 1) then 1 else 0
  }

  /** A map whose set bits are those from next up to ninos has ninos - next of them. */
  lemma {:induction false} PopcountIsUnused(blocks: seq<seq<bv32>>, next: nat, ninos: nat, n: nat)
    requires next <= ninos && forall b: nat | b < n :: MapBit(blocks, b) <==> next <= b < ninos
    ensures Popcount(blocks, n) == if n <= next then 0 else if n <= ninos then n - next else ninos - next
  {
    if n > 0 {
      PopcountIsUnused(blocks, next, ninos, n - 1);
    }
  }

  /** The blocks written so far hold their part of the map. */
  ghost predicate MapOk(blocks: seq<seq<bv32>>, next: nat, ninos: nat) {
    forall b: nat | b < SFS_BLKBITS * |blocks| :: MapBit(blocks, b) <==> next <= b < ninos
  }

  lemma MapMore(blocks: seq<seq<bv32>>, words: seq<bv32>, next: nat, ninos: nat)
    requires MapOk(blocks, next, ninos)
    requires forall x | 0 <= x < SFS_BLKBITS :: BitAt(words, x) <==> next <= SFS_BLKBITS * |blocks| + x < ninos
    ensures MapOk(blocks + [words], next, ninos)
  {
    hide BitAt;
    forall b: nat | b < SFS_BLKBITS * |blocks + [words]| ensures MapBit(blocks + [words], b) <==> next <= b < ninos {
      assert b == SFS_BLKBITS * (b / SFS_BLKBITS) + b % SFS_BLKBITS;
      if b / SFS_BLKBITS < |blocks| {
        assert MapBit(blocks, b) <==> next <= b < ninos;
      }
    }
  }
}
