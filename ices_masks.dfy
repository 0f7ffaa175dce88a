/**
  The exhaustive algorithm's encoding of candidate paths: an integer mask
  whose bit `j` says whether move `j` goes right (set) or down (clear).
 */
module IcesMasks {
  import opened IcesTypes
  import opened IcesPaths

  /** Two to the power `n`: the number of masks of `n` bits. */
  function Pow2(n: nat): (r: nat)
    ensures r >= 1
  {
    if n == 0 then 1 else 2 * Pow2(n - 1)
  }

  /** `i >> j` for a non-negative `i`: `i` halved `j` times, rounding down. */
  function ShiftRight(i: nat, j: nat): nat {
    if j == 0 then i else ShiftRight(i / 2, j - 1)
  }

  /** The move a bit selects: 1 is right, 0 is down. */
  function MoveOfBit(b: nat): Move {
    if b == 1 then Right else Down
  }

  /** The `n` moves that the low `n` bits of the mask `i` describe, bit 0 first. */
  function Decode(i: nat, n: nat): (m: seq<Move>)
    ensures |m| == n
  {
    if n == 0 then [] else [MoveOfBit(i % 2)] + Decode(i / 2, n - 1)
  }

  /** The mask that describes a move sequence: the inverse of `Decode`. */
  function Encode(m: seq<Move>): nat {
    if m == [] then 0 else (if m[0] == Right then 1 else 0) + 2 * Encode(m[1..])
  }

  /** Move `j` of a decoded mask is the one bit `j` selects, `(i >> j) & 1`. */
  lemma {:induction false} DecodeAt(i: nat, n: nat, j: nat)
    requires j < n
    ensures Decode(i, n)[j] == MoveOfBit(ShiftRight(i, j) % 2)
  {
    if j > 0 {
      DecodeAt(i / 2, n - 1, j - 1);
    }
  }

  /** A sequence of `n` moves is encoded by one of the `2^n` masks of `n` bits. */
  lemma {:induction false} EncodeBound(m: seq<Move>)
    ensures Encode(m) < Pow2(|m|)
  {
    if m != [] {
      EncodeBound(m[1..]);
    }
  }

  /** Decoding the encoding of a move sequence gives the sequence back. */
  lemma {:induction false} DecodeEncode(m: seq<Move>)
    ensures Decode(Encode(m), |m|) == m
  {
    if m != [] {
      DecodeEncode(m[1..]);
      var i := Encode(m);
      assert i % 2 == (if m[0] == Right then 1 else 0);
      assert i / 2 == Encode(m[1..]);
      assert Decode(i, |m|) == [m[0]] + m[1..];
    }
  }

  /** Encoding the decoding of a mask below `2^n` gives the mask back. */
  lemma {:induction false} EncodeDecode(i: nat, n: nat)
    requires i < Pow2(n)
    ensures Encode(Decode(i, n)) == i
  {
    if n > 0 {
      EncodeDecode(i / 2, n - 1);
      var m := Decode(i, n);
      assert m[1..] == Decode(i / 2, n - 1);
    }
  }

  /** The masks below `bound` whose decoded moves walk legally across `g`:
      the candidates the exhaustive algorithm counts. */
  function ValidMasks(g: Grid, bound: nat): set<nat>
    requires g.WellFormed() && g.rows > 0 && g.columns > 0
  {
    set i: nat | i < bound && Walks(g, Decode(i, Steps(g)))
  }

  /** Looking at one more mask adds it to the counted set exactly when its
      walk is legal. */
  lemma ValidMasksNext(g: Grid, bound: nat)
    requires g.WellFormed() && g.rows > 0 && g.columns > 0
    ensures bound !in ValidMasks(g, bound)
    ensures ValidMasks(g, bound + 1)
      == ValidMasks(g, bound) + (if Walks(g, Decode(bound, Steps(g))) then {bound} else {})
  {
  }

  /** Looking at one more mask adds one to the count exactly when its walk
      is legal. */
  lemma ValidMasksCountNext(g: Grid, bound: nat, valid: bool)
    requires g.WellFormed() && g.rows > 0 && g.columns > 0
    requires valid == Walks(g, Decode(bound, Steps(g)))
    ensures |ValidMasks(g, bound + 1)| == |ValidMasks(g, bound)| + (if valid then 1 else 0)
  {
    ValidMasksNext(g, bound);
  }

  /** No more masks are counted than were looked at. */
  lemma {:induction false} ValidMasksBound(g: Grid, bound: nat)
    requires g.WellFormed() && g.rows > 0 && g.columns > 0
    ensures |ValidMasks(g, bound)| <= bound
  {
    if bound > 0 {
      ValidMasksBound(g, bound - 1);
      ValidMasksCountNext(g, bound - 1, Walks(g, Decode(bound - 1, Steps(g))));
    }
  }

  /** A mask is counted exactly when it is below `2^steps` and every move it
      describes lands where `may_step` allows, move `j` going right exactly
      when bit `j` of the mask is set. */
  lemma MaskCountedIff(g: Grid, i: nat)
    requires g.WellFormed() && g.rows > 0 && g.columns > 0
    ensures i in ValidMasks(g, Pow2(Steps(g))) <==>
      i < Pow2(Steps(g)) &&
      forall k :: 1 <= k <= Steps(g) ==>
        g.MayStep(EndOf(Decode(i, Steps(g))[..k]).row, EndOf(Decode(i, Steps(g))[..k]).col)
    ensures forall j :: 0 <= j < Steps(g) ==>
      (Decode(i, Steps(g))[j] == Right <==> ShiftRight(i, j) % 2 == 1)
  {
    WalksEveryMove(g, Decode(i, Steps(g)));
    assert i in ValidMasks(g, Pow2(Steps(g))) <==> i < Pow2(Steps(g)) && Walks(g, Decode(i, Steps(g)));
    forall j | 0 <= j < Steps(g)
      ensures Decode(i, Steps(g))[j] == Right <==> ShiftRight(i, j) % 2 == 1
    {
      DecodeAt(i, Steps(g), j);
    }
  }

  /** The move sequences a set of masks decodes to. */
  function Decodings(masks: set<nat>, n: nat): set<seq<Move>> {
    set i | i in masks :: Decode(i, n)
  }

  /** Distinct masks below `2^n` decode to distinct move sequences, so a
      set of them has as many decodings as members. */
  lemma {:induction false} DecodingsCard(masks: set<nat>, n: nat)
    requires forall i :: i in masks ==> i < Pow2(n)
    ensures |Decodings(masks, n)| == |masks|
  {
    if masks != {} {
      var x :| x in masks;
      var rest := masks - {x};
      DecodingsCard(rest, n);
      forall m
        ensures m in Decodings(masks, n) <==> m in Decodings(rest, n) + {Decode(x, n)}
      {
        if m in Decodings(masks, n) {
          var i :| i in masks && m == Decode(i, n);
          if i != x {
            assert i in rest;
          }
        }
      }
      assert Decodings(masks, n) == Decodings(rest, n) + {Decode(x, n)};
      EncodeDecode(x, n);
      forall i | i in rest
        ensures Decode(i, n) != Decode(x, n)
      {
        EncodeDecode(i, n);
      }
      assert Decode(x, n) !in Decodings(rest, n);
    }
  }

  /** A counted mask decodes to a legal path to the bottom-right corner. */
  lemma CountedMaskIsPath(g: Grid, i: nat)
    requires g.WellFormed() && g.rows > 0 && g.columns > 0
    requires i in ValidMasks(g, Pow2(Steps(g)))
    ensures Decode(i, Steps(g)) in Paths(g, g.rows - 1, g.columns - 1)
  {
    CompletedWalkEndsAtCorner(g, Decode(i, Steps(g)));
  }

  /** A legal path to the bottom-right corner is the decoding of the counted
      mask that encodes it. */
  lemma PathIsCountedMask(g: Grid, m: seq<Move>)
    requires g.WellFormed() && g.rows > 0 && g.columns > 0
    requires m in Paths(g, g.rows - 1, g.columns - 1)
    ensures Encode(m) in ValidMasks(g, Pow2(Steps(g))) && Decode(Encode(m), Steps(g)) == m
  {
    EncodeBound(m);
    DecodeEncode(m);
  }

  /** Decoding maps the counted masks one-to-one onto the legal
      corner-to-corner paths, so there are as many of each. */
  lemma MasksCountPaths(g: Grid)
    requires g.WellFormed() && g.rows > 0 && g.columns > 0
    ensures |ValidMasks(g, Pow2(Steps(g)))| == PathCount(g)
  {
    var n := Steps(g);
    var masks := ValidMasks(g, Pow2(n));
    var corner := Paths(g, g.rows - 1, g.columns - 1);
    DecodingsCard(masks, n);
    forall m | m in Decodings(masks, n)
      ensures m in corner
    {
      var i :| i in masks && m == Decode(i, n);
      CountedMaskIsPath(g, i);
    }
    forall m | m in corner
      ensures m in Decodings(masks, n)
    {
      PathIsCountedMask(g, m);
    }
    assert Decodings(masks, n) == corner;
  }
}
