/** Argon2id with one lane, three passes and 65536 blocks, told in the numbers of RFC 9106 instead of its loops. */
module Argon2Meaning {
  import opened Words
  import opened Argon2

  /** The block that counts address blocks: pass, lane, slice, blocks, passes, type and counter, and zeros. */
  ghost predicate CountsAddresses(b: Block, slice: nat, counter: nat) {
    && (forall k :: 0 <= k < 128 && k != 2 && k != 3 && k != 4 && k != 5 && k != 6 ==> b[k] == 0)
    && b[2] as nat == slice && b[3] == 65536 && b[4] == 3 && b[5] == 2 && b[6] as nat == counter
  }

  ghost predicate AllZero(b: Block) {
    forall k :: 0 <= k < 128 ==> b[k] == 0
  }

  /** In the first half of the first pass the memory has no say in which block is referred to. */
  lemma FirstHalfIgnoresMemory(g: Mixer, m: Memory, m': Memory, slice: nat, i: nat)
    requires slice < 2 && Position(0, slice, i)
    ensures Random(g, m, 0, slice, i) == Random(g, m', 0, slice, i)
    ensures exists zero, count ::
              AllZero(zero) && CountsAddresses(count, slice, i / 128 + 1)
              && Random(g, m, 0, slice, i) == g.mix(zero, g.mix(zero, count))[i % 128]
  {
    var count := Input(0, slice, i / 128 + 1);
    assert AllZero(ZERO) && CountsAddresses(count, slice, i / 128 + 1);
  }

  /** Everywhere else the number is the first word of the block just written. */
  lemma ElsewhereMemoryDecides(g: Mixer, m: Memory, pass: nat, slice: nat, i: nat)
    requires pass < 3 && Position(pass, slice, i) && (pass > 0 || slice >= 2)
    ensures Random(g, m, pass, slice, i) == m[(slice * 16384 + i + 65535) % 65536][0]
  {
  }

  /** The block referred to, in closed form: the number's low half squared and scaled, counted back from the newest. */
  lemma ReferenceIs(pass: nat, slice: nat, i: nat, random: uint64)
    requires Position(pass, slice, i)
    ensures var j := random as nat % 0x1_0000_0000;
            var area := if pass == 0 then 16384 * slice + i - 1 else 49152 + i - 1;
            var z := area - 1 - area * (j * j / 0x1_0000_0000) / 0x1_0000_0000;
            && 0 <= z < area
            && Reference(pass, slice, i, random) == (if pass == 0 then z else (z + 16384 * ((slice + 1) % 4)) % 65536)
  {
    hide Window;
    var j := random as nat % WORD;
    PickInside(Area(pass, slice, i), j * j / WORD, j);
  }

  /** One step writes one block, mixed from the one before it and the one referred to, over the old one in later passes. */
  lemma StepIs(g: Mixer, m: Memory, pass: nat, slice: nat, i: nat)
    requires pass < 3 && Position(pass, slice, i)
    ensures var n, at := Step(g, m, pass, slice, i), slice * 16384 + i;
            var mixed := g.mix(m[(at + 65535) % 65536], m[Reference(pass, slice, i, Random(g, m, pass, slice, i))]);
            && (forall k :: 0 <= k < 65536 && k != at ==> n[k] == m[k])
            && n[at] == if pass == 0 then mixed else g.over(mixed, m[at])
  {
    hide Reference, Random, Window;
  }

  /** Memories, each left by the step before it, from position i of a segment to its end. */
  ghost predicate Steps(g: Mixer, ms: seq<Memory>, pass: nat, slice: nat, i: nat) {
    && pass < 3 && slice < 4 && Start(pass, slice) <= i <= 16384 && |ms| == 16384 - i + 1
    && forall k :: 0 <= k < |ms| - 1 ==> ms[k + 1] == Step(g, ms[k], pass, slice, i + k)
  }

  lemma {:induction false} PositionsInOrder(g: Mixer, m: Memory, pass: nat, slice: nat, i: nat) returns (ms: seq<Memory>)
    requires pass < 3 && slice < 4 && Start(pass, slice) <= i <= SEGMENT
    ensures Steps(g, ms, pass, slice, i) && ms[0] == m && ms[|ms| - 1] == FromPosition(g, m, pass, slice, i)
    decreases SEGMENT - i
  {
    hide Step;
    if i == SEGMENT {
      ms := [m];
    } else {
      var rest := PositionsInOrder(g, Step(g, m, pass, slice, i), pass, slice, i + 1);
      ms := [m] + rest;
      assert forall k :: 1 <= k < |ms| ==> ms[k] == rest[k - 1];
    }
  }

  /** The twelve segments: every slice of every pass, in order, the first one from its third block on. */
  lemma SegmentsInOrder(g: Mixer, m: Memory) returns (ms: seq<Memory>)
    ensures |ms| == 13 && ms[0] == m && ms[12] == FromPass(g, m, 0)
    ensures forall pass, slice :: 0 <= pass < 3 && 0 <= slice < 4 ==> SegmentFills(g, ms, pass, slice)
  {
    hide FromPosition;
    var a := FourSegments(g, m, 0);
    var b := FourSegments(g, a[4], 1);
    var d := FourSegments(g, b[4], 2);
    ms := a + b[1..] + d[1..];
    PassesInOrder(g, m);
    assert forall k :: 0 <= k < 5 ==> ms[k] == a[k] && ms[4 + k] == b[k] && ms[8 + k] == d[k];
    forall pass, slice | 0 <= pass < 3 && 0 <= slice < 4
      ensures SegmentFills(g, ms, pass, slice)
    {
      SegmentOf(g, ms, if pass == 0 then a else if pass == 1 then b else d, pass, slice);
    }
  }

  lemma SegmentOf(g: Mixer, ms: seq<Memory>, part: seq<Memory>, pass: nat, slice: nat)
    requires |ms| == 13 && |part| == 5 && pass < 3 && slice < 4 && forall k :: 0 <= k < 5 ==> ms[4 * pass + k] == part[k]
    requires part[slice + 1] == FromPosition(g, part[slice], pass, slice, if pass == 0 && slice == 0 then 2 else 0)
    ensures SegmentFills(g, ms, pass, slice)
  {
    hide FromPosition;
    assert ms[4 * pass + slice] == part[slice] && ms[4 * pass + slice + 1] == part[slice + 1];
  }

  ghost predicate SegmentFills(g: Mixer, ms: seq<Memory>, pass: nat, slice: nat) {
    && |ms| == 13 && pass < 3 && slice < 4
    && ms[4 * pass + slice + 1] == FromPosition(g, ms[4 * pass + slice], pass, slice, if pass == 0 && slice == 0 then 2 else 0)
  }

  lemma FourSegments(g: Mixer, m: Memory, pass: nat) returns (ms: seq<Memory>)
    requires pass < 3
    ensures |ms| == 5 && ms[0] == m && ms[4] == FromSlice(g, m, pass, 0)
    ensures forall k :: 0 <= k < 4 ==> ms[k + 1] == FromPosition(g, ms[k], pass, k, if pass == 0 && k == 0 then 2 else 0)
  {
    hide FromPosition;
    var a := FromPosition(g, m, pass, 0, Start(pass, 0));
    var b := FromPosition(g, a, pass, 1, 0);
    var d := FromPosition(g, b, pass, 2, 0);
    var e := FromPosition(g, d, pass, 3, 0);
    ms := [m, a, b, d, e];
    assert FromSlice(g, b, pass, 2) == FromSlice(g, d, pass, 3) == FromSlice(g, e, pass, 4) == e;
  }

  lemma PassesInOrder(g: Mixer, m: Memory)
    ensures FromPass(g, m, 0) == FromSlice(g, FromSlice(g, FromSlice(g, m, 0, 0), 1, 0), 2, 0)
  {
    hide FromSlice;
    var a := FromSlice(g, m, 0, 0);
    assert FromPass(g, a, 1) == FromPass(g, FromSlice(g, a, 1, 0), 2);
  }
}
