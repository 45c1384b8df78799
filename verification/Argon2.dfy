/**
 * The memory-filling loop of Argon2id with one lane (RFC 9106, sections 3.2 to 3.4): which block each new block refers
 * to. The compression of two blocks stays abstract.
 */
module Argon2 {
  import opened Words

  const BLOCKS: nat := 65536
  const SEGMENT: nat := 16384
  function Zeros(n: nat): (s: seq<uint64>)
    ensures |s| == n
  {
    seq(n, _ => 0)
  }

  type Block = b: seq<uint64> | |b| == 128 witness Zeros(128)

  /** The compression of two blocks, and the sum of a block with the one it is written over. */
  datatype Mixer = Mixer(mix: (Block, Block) -> Block, over: (Block, Block) -> Block)

  function Blank(n: nat): (m: seq<Block>)
    ensures |m| == n
  {
    seq(n, _ => Zeros(128))
  }

  type Memory = m: seq<Block> | |m| == BLOCKS witness Blank(BLOCKS)

  // ------------------------------------------------------------------------------- the standard

  /** The first slice of the first pass begins behind the two blocks hashed from the input. */
  function Start(pass: nat, slice: nat): nat {
    if pass == 0 && slice == 0 then 2 else 0
  }

  predicate Position(pass: nat, slice: nat, i: nat) {
    slice < 4 && Start(pass, slice) <= i < SEGMENT
  }

  function Current(slice: nat, i: nat): nat {
    slice * SEGMENT + i
  }

  function Previous(slice: nat, i: nat): nat {
    if Current(slice, i) == 0 then BLOCKS - 1 else Current(slice, i) - 1
  }

  function Range(from: nat, count: nat): (s: seq<nat>)
    ensures |s| == count && forall k :: 0 <= k < count ==> s[k] == from + k
  {
    seq(count, k => from + k)
  }

  function Segment(slice: nat): (s: seq<nat>)
    ensures |s| == SEGMENT
  {
    Range(slice * SEGMENT, SEGMENT)
  }

  /** The first block of the window. */
  function Offset(pass: nat, slice: nat): nat {
    if pass == 0 || slice == 3 then 0 else (slice + 1) * SEGMENT
  }

  function Area(pass: nat, slice: nat, i: nat): (n: nat)
    requires Position(pass, slice, i)
    ensures 0 < n < BLOCKS
  {
    if pass == 0 then Current(slice, i) - 1 else BLOCKS - SEGMENT + i - 1
  }

  /** The segments filled before this one: those of the pass, or in later passes the three others, oldest first. */
  function Complete(pass: nat, slice: nat): (s: seq<nat>)
    requires slice < 4
    ensures |s| == if pass == 0 then slice * SEGMENT else 3 * SEGMENT
    ensures forall z :: 0 <= z < |s| ==> s[z] == (Offset(pass, slice) + z) % BLOCKS
  {
    if pass == 0 then Range(0, slice * SEGMENT)
    else Segment((slice + 1) % 4) + Segment((slice + 2) % 4) + Segment((slice + 3) % 4)
  }

  /**
   * RFC 9106, section 3.4.2: the blocks that may be referred to, oldest first. Those of the other segments that are
   * complete, then those of this segment so far, without the one just written.
   */
  function Window(pass: nat, slice: nat, i: nat): (w: seq<nat>)
    requires Position(pass, slice, i)
    ensures |w| == Area(pass, slice, i)
    ensures forall z :: 0 <= z < |w| ==> w[z] == (Offset(pass, slice) + z) % BLOCKS
  {
    var all := Complete(pass, slice) + Range(slice * SEGMENT, i);
    all[..|all| - 1]
  }

  /** The pseudo-random number in the low half of a word picks a block, later ones more often. */
  function Reference(pass: nat, slice: nat, i: nat, random: uint64): (r: nat)
    requires Position(pass, slice, i)
    ensures r < BLOCKS && r in Window(pass, slice, i)
  {
    var w := Window(pass, slice, i);
    var j := random as nat % WORD;
    var x := j * j / WORD;
    PickInside(|w|, x, j);
    w[|w| - 1 - |w| * x / WORD]
  }

  lemma PickInside(size: nat, x: nat, j: nat)
    requires size > 0 && j < WORD && x == j * j / WORD
    ensures x < WORD && 0 <= size * x / WORD < size
  {
    Below(j, j, WORD);
    Below(size, x, WORD);
  }

  lemma Monotone(a: nat, b: nat, w: nat)
    requires a <= b
    ensures a * w <= b * w && w * a <= w * b
  {
  }

  lemma Below(a: nat, b: nat, w: nat)
    requires b < w
    ensures a * b / w <= a && (a > 0 ==> a * b / w < a)
  {
    Monotone(b, w - 1, a);
    if a > 0 {
      assert a * (w - 1) == a * w - a;
      Quotient(a * b, w, a);
    }
  }

  lemma Quotient(x: nat, w: nat, a: nat)
    requires w > 0 && x < a * w
    ensures x / w < a
  {
    var q := x / w;
    assert x == q * w + x % w;
    if q >= a {
      Monotone(a, q, w);
      assert false;
    }
  }

  function Independent(pass: nat, slice: nat): bool {
    pass == 0 && slice < 2
  }

  const ZERO: Block := Zeros(128)

  function Input(pass: nat, slice: nat, counter: nat): Block
    requires pass < 3 && slice < 4 && counter <= SEGMENT
  {
    ZERO[0 := pass as uint64][2 := slice as uint64][3 := BLOCKS as uint64][4 := 3][5 := 2][6 := counter as uint64]
  }

  /** Section 3.4.1.2: a block of 128 pseudo-random numbers. */
  function Address(g: Mixer, pass: nat, slice: nat, counter: nat): Block
    requires pass < 3 && slice < 4 && counter <= SEGMENT
  {
    g.mix(ZERO, g.mix(ZERO, Input(pass, slice, counter)))
  }

  function Random(g: Mixer, m: Memory, pass: nat, slice: nat, i: nat): uint64
    requires pass < 3 && Position(pass, slice, i)
  {
    if Independent(pass, slice) then Address(g, pass, slice, i / 128 + 1)[i % 128] else m[Previous(slice, i)][0]
  }

  function Step(g: Mixer, m: Memory, pass: nat, slice: nat, i: nat): Memory
    requires pass < 3 && Position(pass, slice, i)
  {
    var at := Current(slice, i);
    hide Reference, Window;
    var b := g.mix(m[Previous(slice, i)], m[Reference(pass, slice, i, Random(g, m, pass, slice, i))]);
    m[at := if pass == 0 then b else g.over(b, m[at])]
  }

  /** The rest of a segment from position i on. */
  function FromPosition(g: Mixer, m: Memory, pass: nat, slice: nat, i: nat): Memory
    requires pass < 3 && slice < 4 && Start(pass, slice) <= i <= SEGMENT
    decreases SEGMENT - i
  {
    if i == SEGMENT then m else FromPosition(g, Step(g, m, pass, slice, i), pass, slice, i + 1)
  }

  function FromSlice(g: Mixer, m: Memory, pass: nat, slice: nat): Memory
    requires pass < 3 && slice <= 4
    decreases 4 - slice
  {
    if slice == 4 then m
    else FromSlice(g, FromPosition(g, m, pass, slice, Start(pass, slice)), pass, slice + 1)
  }

  function FromPass(g: Mixer, m: Memory, pass: nat): Memory
    requires pass <= 3
    decreases 3 - pass
  {
    if pass == 3 then m else FromPass(g, FromSlice(g, m, pass, 0), pass + 1)
  }

  // ------------------------------------------------------------------------------- what may be referred to

  /** Exactly the blocks that hold a value of this pass, or of the one before it in a segment not begun, but the last. */
  lemma WindowIs(pass: nat, slice: nat, i: nat, b: nat)
    requires Position(pass, slice, i)
    ensures b in Window(pass, slice, i) <==>
      && b < BLOCKS && b != Previous(slice, i)
      && (b < Current(slice, i) || (pass > 0 && b / SEGMENT != slice))
  {
    hide Window;
    var w, offset := Window(pass, slice, i), Offset(pass, slice);
    if b < BLOCKS {
      var z := (b - offset) % BLOCKS;
      assert (offset + z) % BLOCKS == b;
      assert z < |w| ==> w[z] == b;
    }
  }

  /** Whatever the random number, the block referred to is another one, already there, and not the one just written. */
  lemma ReferenceSafe(pass: nat, slice: nat, i: nat, random: uint64)
    requires Position(pass, slice, i)
    ensures var r := Reference(pass, slice, i, random);
            && r < BLOCKS && r != Current(slice, i) && r != Previous(slice, i) && (pass == 0 ==> r < Current(slice, i))
  {
    hide Reference, Window;
    var r := Reference(pass, slice, i, random);
    WindowIs(pass, slice, i, r);
    assert Current(slice, i) / SEGMENT == slice;
  }

  // ------------------------------------------------------------------------------- nothing else is read

  lemma StepAgrees(g: Mixer, m: Memory, m': Memory, slice: nat, i: nat)
    requires Position(0, slice, i) && m[..Current(slice, i)] == m'[..Current(slice, i)]
    ensures Step(g, m, 0, slice, i)[..Current(slice, i) + 1] == Step(g, m', 0, slice, i)[..Current(slice, i) + 1]
  {
    var at, p := Current(slice, i), Previous(slice, i);
    assert m[p] == m[..at][p] && m'[p] == m'[..at][p];
    var random := Random(g, m, 0, slice, i);
    assert random == Random(g, m', 0, slice, i);
    ReferenceSafe(0, slice, i, random);
    var r := Reference(0, slice, i, random);
    assert m[r] == m[..at][r] && m'[r] == m'[..at][r];
    var n, n' := Step(g, m, 0, slice, i), Step(g, m', 0, slice, i);
    assert n[..at] == m[..at] && n'[..at] == m'[..at] && n[at] == n'[at];
    assert n[..at + 1] == n[..at] + [n[at]] && n'[..at + 1] == n'[..at] + [n'[at]];
  }

  lemma {:induction false} SegmentAgrees(g: Mixer, m: Memory, m': Memory, slice: nat, i: nat)
    requires slice < 4 && Start(0, slice) <= i <= SEGMENT
    requires m[..Current(slice, i)] == m'[..Current(slice, i)]
    ensures var n, n' := FromPosition(g, m, 0, slice, i), FromPosition(g, m', 0, slice, i);
            n[..Current(slice, SEGMENT)] == n'[..Current(slice, SEGMENT)]
    decreases SEGMENT - i
  {
    if i < SEGMENT {
      StepAgrees(g, m, m', slice, i);
      SegmentAgrees(g, Step(g, m, 0, slice, i), Step(g, m', 0, slice, i), slice, i + 1);
    }
  }

  lemma {:induction false} SlicesAgree(g: Mixer, m: Memory, m': Memory, slice: nat)
    requires slice <= 4
    requires var known := Current(slice, Start(0, slice)); m[..known] == m'[..known]
    ensures FromSlice(g, m, 0, slice) == FromSlice(g, m', 0, slice)
    decreases 4 - slice
  {
    hide FromPosition;
    if slice == 4 {
      assert m == m[..BLOCKS] && m' == m'[..BLOCKS];
    } else {
      var i := Start(0, slice);
      SegmentAgrees(g, m, m', slice, i);
      SlicesAgree(g, FromPosition(g, m, 0, slice, i), FromPosition(g, m', 0, slice, i), slice + 1);
    }
  }

  /** What the memory held before its first two blocks were set has no influence: no block is read before it is written. */
  lemma OnlySeedsMatter(g: Mixer, m: Memory, m': Memory)
    requires m[0] == m'[0] && m[1] == m'[1]
    ensures FromPass(g, m, 0) == FromPass(g, m', 0)
  {
    hide FromSlice, FromPosition;
    assert m[..2] == [m[0], m[1]] && m'[..2] == [m'[0], m'[1]];
    SlicesAgree(g, m, m', 0);
    assert FromPass(g, m, 0) == FromPass(g, FromSlice(g, m, 0, 0), 1);
  }

  // ------------------------------------------------------------------------------- the program

  /** The arithmetic on words by which the program picks a block. */
  method Pick(pass: uint32, slice: uint32, i: uint32, random: uint64) returns (reference: uint32)
    requires Position(pass as nat, slice as nat, i as nat) && pass < 3
    ensures reference as nat == Reference(pass as nat, slice as nat, i as nat, random)
  {
    hide Window;
    var current := slice * 16384 + i;
    var area: uint32 := if pass != 0 then 65536 - 16384 + i - 1 else current - 1;
    var relative: uint64 := random % 0x1_0000_0000;
    Squares(relative as nat);
    ghost var j := relative as nat;
    relative := relative * relative / 0x1_0000_0000;
    PickInside(area as nat, relative as nat, j);
    Products(area as nat, relative as nat);
    relative := area as uint64 - 1 - area as uint64 * relative / 0x1_0000_0000;
    var offset: uint32 := if pass != 0 then (if slice == 3 then 0 else (slice + 1) * 16384) else 0;
    reference := (offset + relative as uint32) % 65536;
  }

  lemma Squares(j: nat)
    requires j < WORD
    ensures j * j < WORD * WORD
  {
    Monotone(j, WORD - 1, j);
    Monotone(j, WORD - 1, WORD - 1);
  }

  lemma Products(area: nat, x: nat)
    requires area < BLOCKS && x < WORD
    ensures area * x < WORD * WORD
  {
    Monotone(x, WORD, area);
  }

  /** The turn of a segment's loop behind the choice of its random number. */
  method FillBlock(g: Mixer, scratch: array<Block>, pass: uint32, slice: uint32, i: uint32, random: uint64)
    requires scratch.Length >= BLOCKS && pass < 3 && Position(pass as nat, slice as nat, i as nat)
    requires random == Random(g, scratch[..BLOCKS], pass as nat, slice as nat, i as nat)
    modifies scratch
    ensures scratch[..BLOCKS] == Step(g, old(scratch[..BLOCKS]), pass as nat, slice as nat, i as nat)
    ensures scratch[BLOCKS..] == old(scratch[BLOCKS..])
  {
    hide Reference, Random, Window;
    var current := slice * 16384 + i;
    var previous := if current != 0 then current - 1 else 65536 - 1;
    var reference := Pick(pass, slice, i, random);
    ReferenceSafe(pass as nat, slice as nat, i as nat, random);
    var b := g.mix(scratch[previous], scratch[reference]);
    scratch[current] := if pass != 0 then g.over(b, scratch[current]) else b;
  }

  /** Fills one segment. `counter` numbers the address blocks, one for each 128 positions. */
  method FillSegment(g: Mixer, scratch: array<Block>, pass: uint32, slice: uint32)
    requires scratch.Length >= BLOCKS && pass < 3 && slice < 4
    modifies scratch
    ensures scratch[..BLOCKS] == FromPosition(g, old(scratch[..BLOCKS]), pass as nat, slice as nat, Start(pass as nat, slice as nat))
    ensures scratch[BLOCKS..] == old(scratch[BLOCKS..])
  {
    hide Reference, Address, Window, FromPosition, Input, Step;
    var independent := pass == 0 && slice < 2;
    var start: uint32 := if pass == 0 && slice == 0 then 2 else 0;
    var counter: uint64 := 0;
    var address := ZERO;
    ghost var p, s := pass as nat, slice as nat;
    if independent && start != 0 {
      counter := counter + 1;
      address := g.mix(ZERO, g.mix(ZERO, Numbered(pass, slice, counter)));
      AddressIs(g, p, s, counter as nat, address);
    }
    var i := start;
    while i < 16384
      invariant Start(p, s) <= i as nat <= SEGMENT
      invariant FromPosition(g, scratch[..BLOCKS], p, s, i as nat) == FromPosition(g, old(scratch[..BLOCKS]), p, s, Start(p, s))
      invariant scratch[BLOCKS..] == old(scratch[BLOCKS..])
      invariant independent ==> counter as nat == (i as nat + 127) / 128
      invariant independent && i % 128 != 0 ==> address == Address(g, p, s, counter as nat)
    {
      ghost var m: Memory := scratch[..BLOCKS];
      if independent && i % 128 == 0 {
        counter := counter + 1;
        address := g.mix(ZERO, g.mix(ZERO, Numbered(pass, slice, counter)));
        AddressIs(g, p, s, counter as nat, address);
      }
      var current := slice * 16384 + i;
      var previous := if current != 0 then current - 1 else 65536 - 1;
      var random := if independent then address[i % 128] else scratch[previous][0];
      assert random == Random(g, m, p, s, i as nat);
      FillBlock(g, scratch, pass, slice, i, random);
      Unfold(g, m, p, s, i as nat);
      i := i + 1;
    }
    Unfold(g, scratch[..BLOCKS], p, s, SEGMENT);
  }

  lemma Unfold(g: Mixer, m: Memory, pass: nat, slice: nat, i: nat)
    requires pass < 3 && slice < 4 && Start(pass, slice) <= i <= SEGMENT
    ensures FromPosition(g, m, pass, slice, i)
         == if i == SEGMENT then m else FromPosition(g, Step(g, m, pass, slice, i), pass, slice, i + 1)
  {
    hide Step;
  }

  lemma AddressIs(g: Mixer, pass: nat, slice: nat, counter: nat, address: Block)
    requires pass < 3 && slice < 4 && counter <= SEGMENT
    requires address == g.mix(ZERO, g.mix(ZERO, Input(pass, slice, counter)))
    ensures address == Address(g, pass, slice, counter)
  {
  }

  function Numbered(pass: uint32, slice: uint32, counter: uint64): (b: Block)
    requires pass < 3 && slice < 4 && counter as nat <= SEGMENT
    ensures b == Input(pass as nat, slice as nat, counter as nat)
  {
    ZERO[0 := pass as uint64][2 := slice as uint64][3 := 65536][4 := 3][5 := 2][6 := counter]
  }

  method FillMemory(g: Mixer, scratch: array<Block>)
    requires scratch.Length >= BLOCKS
    modifies scratch
    ensures scratch[..BLOCKS] == FromPass(g, old(scratch[..BLOCKS]), 0)
    ensures scratch[BLOCKS..] == old(scratch[BLOCKS..])
  {
    hide FromPosition;
    var pass: uint32 := 0;
    while pass < 3
      invariant scratch[BLOCKS..] == old(scratch[BLOCKS..])
      invariant pass <= 3 && FromPass(g, scratch[..BLOCKS], pass as nat) == FromPass(g, old(scratch[..BLOCKS]), 0)
    {
      ghost var m: Memory := scratch[..BLOCKS];
      var slice: uint32 := 0;
      while slice < 4
        invariant scratch[BLOCKS..] == old(scratch[BLOCKS..])
        invariant slice <= 4 && FromSlice(g, scratch[..BLOCKS], pass as nat, slice as nat) == FromSlice(g, m, pass as nat, 0)
      {
        FillSegment(g, scratch, pass, slice);
        slice := slice + 1;
      }
      pass := pass + 1;
    }
  }
}
