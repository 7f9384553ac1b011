/**
 * Alignment-operation accounting of GraphMap's realignment stage: the
 * structural sanity check of an op vector, the recount of its CIGAR
 * operations and score against the read and reference symbols, and the
 * clipping of an alignment on a circular reference at the reference's origin.
 *
 * An alignment is a vector of op codes, one per alignment column:
 *   0 = match column, 1 = insertion, 2 = deletion, 3 = mismatch column.
 * Under the CIGAR semantics of section 1.4 of the SAM format specification
 * (SAMv1), '=', 'X' and 'I' consume a read base and '=', 'X' and 'D' consume
 * a reference base.
 */
module LocalRealignment {

  newtype byte = x: int | 0 <= x < 256
  newtype int8 = x: int | -128 <= x < 128

  const OpMatch: byte := 0
  const OpInsert: byte := 1
  const OpDelete: byte := 2
  const OpMismatch: byte := 3

  datatype Option<T> = None | Some(value: T)

  /** The CIGAR operation a column becomes once its symbols are compared. */
  datatype CigarOp = Eq | X | I | D

  /** Scoring constants: match is a reward, the other three are penalties. */
  datatype Scoring = Scoring(matchReward: int, mismatch: int, gapOpen: int, gapExtend: int)

  predicate IsValidOp(b: byte) { b <= OpMismatch }

  predicate ValidOps(ops: seq<byte>) { forall k :: 0 <= k < |ops| ==> IsValidOp(ops[k]) }

  predicate ConsumesRead(b: byte) { b == OpMatch || b == OpInsert || b == OpMismatch }

  predicate ConsumesRef(b: byte) { b == OpMatch || b == OpDelete || b == OpMismatch }

  /** Number of read bases the ops consume. */
  function ReadSpan(ops: seq<byte>): (n: nat)
    ensures n <= |ops|
  {
    if ops == [] then 0 else (if ConsumesRead(ops[0]) then 1 else 0) + ReadSpan(ops[1..])
  }

  /** Number of reference bases the ops consume. */
  function RefSpan(ops: seq<byte>): (n: nat)
    ensures n <= |ops|
  {
    if ops == [] then 0 else (if ConsumesRef(ops[0]) then 1 else 0) + RefSpan(ops[1..])
  }

  lemma {:induction false} SpanAppend(a: seq<byte>, b: seq<byte>)
    ensures ReadSpan(a + b) == ReadSpan(a) + ReadSpan(b)
    ensures RefSpan(a + b) == RefSpan(a) + RefSpan(b)
  {
    if a == [] {
      assert a + b == b;
    } else {
      assert (a + b)[1..] == a[1..] + b;
      SpanAppend(a[1..], b);
    }
  }

  /**
   * Walks the ops against the read from read position rp and against the
   * reference from position fp, and gives the CIGAR operation of each column:
   * a match or mismatch column is '=' when the two symbols agree and 'X'
   * otherwise, whatever its code says.
   */
  function Classify(ops: seq<byte>, read: seq<int8>, ref: seq<int8>, rp: nat, fp: nat): (cs: seq<CigarOp>)
    requires ValidOps(ops)
    requires rp + ReadSpan(ops) <= |read| && fp + RefSpan(ops) <= |ref|
    ensures |cs| == |ops|
    ensures forall k :: 0 <= k < |ops| ==> (cs[k] == I <==> ops[k] == OpInsert)
    ensures forall k :: 0 <= k < |ops| ==> (cs[k] == D <==> ops[k] == OpDelete)
    decreases |ops|
  {
    if ops == [] then []
    else
      var c := if ops[0] == OpInsert then I
               else if ops[0] == OpDelete then D
               else if read[rp] == ref[fp] then Eq
               else X;
      var rest := Classify(ops[1..], read, ref,
                           if ConsumesRead(ops[0]) then rp + 1 else rp,
                           if ConsumesRef(ops[0]) then fp + 1 else fp);
      assert forall k :: 1 <= k < |ops| ==> ([c] + rest)[k] == rest[k - 1] && ops[k] == ops[1..][k - 1];
      [c] + rest
  }

  /** After the first column, the columns are those of the remaining ops from the advanced positions. */
  lemma ClassifyTail(ops: seq<byte>, read: seq<int8>, ref: seq<int8>, rp: nat, fp: nat)
    requires ValidOps(ops) && ops != []
    requires rp + ReadSpan(ops) <= |read| && fp + RefSpan(ops) <= |ref|
    ensures var rp', fp' := (if ConsumesRead(ops[0]) then rp + 1 else rp), (if ConsumesRef(ops[0]) then fp + 1 else fp);
            ValidOps(ops[1..]) && rp' + ReadSpan(ops[1..]) <= |read| && fp' + RefSpan(ops[1..]) <= |ref| &&
            Classify(ops, read, ref, rp, fp)[1..] == Classify(ops[1..], read, ref, rp', fp')
  {
  }

  /**
   * In any alignment, gapped or not, a match or mismatch column k compares
   * the read symbol after the ReadSpan(ops[..k]) read bases consumed before
   * it with the reference symbol after the RefSpan(ops[..k]) reference bases,
   * and is '=' exactly when the two agree.
   */
  lemma {:induction false} ClassifyAt(ops: seq<byte>, read: seq<int8>, ref: seq<int8>, rp: nat, fp: nat, k: nat)
    requires ValidOps(ops)
    requires rp + ReadSpan(ops) <= |read| && fp + RefSpan(ops) <= |ref|
    requires k < |ops| && (ops[k] == OpMatch || ops[k] == OpMismatch)
    ensures rp + ReadSpan(ops[..k]) < |read| && fp + RefSpan(ops[..k]) < |ref|
    ensures Classify(ops, read, ref, rp, fp)[k] == Eq <==> read[rp + ReadSpan(ops[..k])] == ref[fp + RefSpan(ops[..k])]
    decreases k
  {
    if k == 0 {
      assert ops[..0] == [];
      assert ConsumesRead(ops[0]) && ConsumesRef(ops[0]);
    } else {
      var rp' := if ConsumesRead(ops[0]) then rp + 1 else rp;
      var fp' := if ConsumesRef(ops[0]) then fp + 1 else fp;
      ClassifyTail(ops, read, ref, rp, fp);
      ClassifyAt(ops[1..], read, ref, rp', fp', k - 1);
      var pre := ops[..k];
      assert pre[1..] == ops[1..][..k - 1];
      assert ReadSpan(pre) == (if ConsumesRead(ops[0]) then 1 else 0) + ReadSpan(ops[1..][..k - 1]);
      assert RefSpan(pre) == (if ConsumesRef(ops[0]) then 1 else 0) + RefSpan(ops[1..][..k - 1]);
    }
  }

  /** The columns of a whole alignment starting at reference position start. */
  function Columns(ops: seq<byte>, read: seq<int8>, ref: seq<int8>, start: nat): (cs: seq<CigarOp>)
    requires ValidOps(ops)
    requires ReadSpan(ops) <= |read| && start + RefSpan(ops) <= |ref|
  {
    Classify(ops, read, ref, 0, start)
  }

  /** Number of occurrences of c in cs. */
  function Count(cs: seq<CigarOp>, c: CigarOp): (n: nat)
    ensures n <= |cs|
  {
    if cs == [] then 0 else (if cs[0] == c then 1 else 0) + Count(cs[1..], c)
  }

  /** Score of one column, given the column before it (None at the start). */
  function ColumnScore(c: CigarOp, prev: Option<CigarOp>, p: Scoring): int
  {
    match c
    case Eq => p.matchReward
    case X => -p.mismatch
    case _ => if prev == Some(c) then -p.gapExtend else -p.gapOpen
  }

  /** Score of columns cs following column prev: affine gaps, one open per run of I or of D. */
  function Score(cs: seq<CigarOp>, prev: Option<CigarOp>, p: Scoring): int
  {
    if cs == [] then 0 else ColumnScore(cs[0], prev, p) + Score(cs[1..], Some(cs[0]), p)
  }

  /** Number of gap runs in cs, following column prev. */
  function GapOpens(cs: seq<CigarOp>, prev: Option<CigarOp>): (n: nat)
    ensures n <= Count(cs, I) + Count(cs, D)
  {
    if cs == [] then 0
    else (if (cs[0] == I || cs[0] == D) && prev != Some(cs[0]) then 1 else 0) + GapOpens(cs[1..], Some(cs[0]))
  }

  /**
   * One step of the walk over an alignment: the first op's column is counted
   * and scored, and the walk goes on with the remaining ops from the advanced
   * read and reference positions.
   */
  lemma WalkStep(ops: seq<byte>, read: seq<int8>, ref: seq<int8>, rp: nat, fp: nat, prev: Option<CigarOp>, p: Scoring)
    requires ValidOps(ops) && ops != []
    requires rp + ReadSpan(ops) <= |read| && fp + RefSpan(ops) <= |ref|
    ensures var rp', fp' := (if ConsumesRead(ops[0]) then rp + 1 else rp), (if ConsumesRef(ops[0]) then fp + 1 else fp);
            var cs, tail := Classify(ops, read, ref, rp, fp), Classify(ops[1..], read, ref, rp', fp');
            cs[0] == (if ops[0] == OpInsert then I else if ops[0] == OpDelete then D
                      else if read[rp] == ref[fp] then Eq else X) &&
            ValidOps(ops[1..]) && rp' + ReadSpan(ops[1..]) == rp + ReadSpan(ops) &&
            fp' + RefSpan(ops[1..]) == fp + RefSpan(ops) &&
            Count(cs, Eq) == (if cs[0] == Eq then 1 else 0) + Count(tail, Eq) &&
            Count(cs, X) == (if cs[0] == X then 1 else 0) + Count(tail, X) &&
            Count(cs, I) == (if cs[0] == I then 1 else 0) + Count(tail, I) &&
            Count(cs, D) == (if cs[0] == D then 1 else 0) + Count(tail, D) &&
            Score(cs, prev, p) == ColumnScore(cs[0], prev, p) + Score(tail, Some(cs[0]), p)
  {
    ClassifyTail(ops, read, ref, rp, fp);
  }

  /** Every column is exactly one of '=', 'X', 'I', 'D'. */
  lemma {:induction false} CountsPartition(cs: seq<CigarOp>)
    ensures Count(cs, Eq) + Count(cs, X) + Count(cs, I) + Count(cs, D) == |cs|
  {
    if cs != [] {
      CountsPartition(cs[1..]);
    }
  }

  /**
   * The '=', 'X' and 'I' columns are exactly the read bases the ops consume,
   * the '=', 'X' and 'D' columns exactly the reference bases.
   */
  lemma {:induction false} ClassifySpans(ops: seq<byte>, read: seq<int8>, ref: seq<int8>, rp: nat, fp: nat)
    requires ValidOps(ops)
    requires rp + ReadSpan(ops) <= |read| && fp + RefSpan(ops) <= |ref|
    ensures var cs := Classify(ops, read, ref, rp, fp);
            Count(cs, Eq) + Count(cs, X) + Count(cs, I) == ReadSpan(ops) &&
            Count(cs, Eq) + Count(cs, X) + Count(cs, D) == RefSpan(ops)
    decreases |ops|
  {
    if ops != [] {
      var rp' := if ConsumesRead(ops[0]) then rp + 1 else rp;
      var fp' := if ConsumesRef(ops[0]) then fp + 1 else fp;
      ClassifySpans(ops[1..], read, ref, rp', fp');
      var cs := Classify(ops, read, ref, rp, fp);
      assert cs[1..] == Classify(ops[1..], read, ref, rp', fp');
    }
  }

  /** The score formula in terms of column counts e, x, i, d and g gap runs. */
  function LinearScore(e: int, x: int, i: int, d: int, g: int, p: Scoring): int
  {
    e * p.matchReward - x * p.mismatch - g * p.gapOpen - (i + d - g) * p.gapExtend
  }

  lemma LinearScoreSteps(e: int, x: int, i: int, d: int, g: int, p: Scoring)
    ensures LinearScore(e + 1, x, i, d, g, p) == LinearScore(e, x, i, d, g, p) + p.matchReward
    ensures LinearScore(e, x + 1, i, d, g, p) == LinearScore(e, x, i, d, g, p) - p.mismatch
    ensures LinearScore(e, x, i + 1, d, g + 1, p) == LinearScore(e, x, i, d, g, p) - p.gapOpen
    ensures LinearScore(e, x, i + 1, d, g, p) == LinearScore(e, x, i, d, g, p) - p.gapExtend
    ensures LinearScore(e, x, i, d + 1, g + 1, p) == LinearScore(e, x, i, d, g, p) - p.gapOpen
    ensures LinearScore(e, x, i, d + 1, g, p) == LinearScore(e, x, i, d, g, p) - p.gapExtend
  {
    assert (e + 1) * p.matchReward == e * p.matchReward + p.matchReward;
    assert (x + 1) * p.mismatch == x * p.mismatch + p.mismatch;
    assert (g + 1) * p.gapOpen == g * p.gapOpen + p.gapOpen;
    assert (i + 1 + d - g) * p.gapExtend == (i + d - g) * p.gapExtend + p.gapExtend;
  }

  /**
   * The score is the '=' reward minus the 'X' penalty minus one gap open per
   * gap run and one gap extension per further gap column.
   */
  lemma {:induction false} ScoreByCounts(cs: seq<CigarOp>, prev: Option<CigarOp>, p: Scoring)
    ensures Score(cs, prev, p) ==
            LinearScore(Count(cs, Eq), Count(cs, X), Count(cs, I), Count(cs, D), GapOpens(cs, prev), p)
  {
    if cs != [] {
      var rest := cs[1..];
      ScoreByCounts(rest, Some(cs[0]), p);
      LinearScoreSteps(Count(rest, Eq), Count(rest, X), Count(rest, I), Count(rest, D), GapOpens(rest, Some(cs[0])), p);
    }
  }

  /** n consecutive '=' columns are n '=' counts and score n times the match reward. */
  lemma {:induction false} AllEqScore(n: nat, prev: Option<CigarOp>, p: Scoring)
    ensures Count(seq(n, _ => Eq), Eq) == n
    ensures Score(seq(n, _ => Eq), prev, p) == n * p.matchReward
  {
    if n > 0 {
      var cs := seq(n, _ => Eq);
      assert cs[1..] == seq(n - 1, _ => Eq);
      AllEqScore(n - 1, Some(Eq), p);
    }
  }

  /**
   * Ungapped alignment: when every op is a match or mismatch column, a column
   * is '=' exactly when its read and reference symbols agree.
   */
  lemma {:induction false} UngappedColumns(ops: seq<byte>, read: seq<int8>, ref: seq<int8>, rp: nat, fp: nat)
    requires forall k :: 0 <= k < |ops| ==> ops[k] == OpMatch || ops[k] == OpMismatch
    requires rp + |ops| <= |read| && fp + |ops| <= |ref|
    ensures ValidOps(ops) && ReadSpan(ops) == |ops| && RefSpan(ops) == |ops|
    ensures forall k :: 0 <= k < |ops| ==>
              (Classify(ops, read, ref, rp, fp)[k] == Eq <==> read[rp + k] == ref[fp + k])
    decreases |ops|
  {
    if ops != [] {
      UngappedColumns(ops[1..], read, ref, rp + 1, fp + 1);
      var cs := Classify(ops, read, ref, rp, fp);
      assert cs[1..] == Classify(ops[1..], read, ref, rp + 1, fp + 1);
      forall k | 1 <= k < |ops| ensures cs[k] == Eq <==> read[rp + k] == ref[fp + k] {
        assert cs[k] == cs[1..][k - 1];
      }
    }
  }

  /**
   * A read that matches the reference exactly, aligned without gaps, gives n
   * '=' columns and n times the match reward ("100=" for a 100-base read).
   */
  lemma PerfectMatchScore(ops: seq<byte>, read: seq<int8>, ref: seq<int8>, start: nat, p: Scoring)
    requires forall k :: 0 <= k < |ops| ==> ops[k] == OpMatch || ops[k] == OpMismatch
    requires |ops| <= |read| && start + |ops| <= |ref|
    requires forall k :: 0 <= k < |ops| ==> read[k] == ref[start + k]
    ensures ValidOps(ops) && ReadSpan(ops) == |ops| && RefSpan(ops) == |ops|
    ensures Columns(ops, read, ref, start) == seq(|ops|, _ => Eq)
    ensures Count(Columns(ops, read, ref, start), Eq) == |ops|
    ensures Score(Columns(ops, read, ref, start), None, p) == |ops| * p.matchReward
  {
    UngappedColumns(ops, read, ref, 0, start);
    var cs := Columns(ops, read, ref, start);
    forall k | 0 <= k < |ops| ensures cs[k] == Eq {
      assert read[0 + k] == ref[start + k];
    }
    assert cs == seq(|ops|, _ => Eq);
    AllEqScore(|ops|, None, p);
  }

  /**
   * Recounts the '=', 'X', 'I' and 'D' columns of an alignment by walking it
   * against the read and the reference (the alignment starts at reference
   * position alignmentPositionStart), recomputes its score from the scoring
   * constants, and gives the number of read bases it covers.
   */
  method CountAlignmentOperations(alignment: seq<byte>, readData: seq<int8>, refData: seq<int8>,
                                  alignmentPositionStart: nat, p: Scoring)
    returns (eq: int, x: int, ins: int, del: int, alignmentScore: int, nonclippedLength: int)
    requires ValidOps(alignment)
    requires ReadSpan(alignment) <= |readData| && alignmentPositionStart + RefSpan(alignment) <= |refData|
    ensures var cs := Columns(alignment, readData, refData, alignmentPositionStart);
            eq == Count(cs, Eq) && x == Count(cs, X) && ins == Count(cs, I) && del == Count(cs, D) &&
            alignmentScore == Score(cs, None, p)
    ensures eq + x + ins + del == |alignment|
    ensures nonclippedLength == ReadSpan(alignment) == eq + x + ins
    ensures eq + x + del == RefSpan(alignment)
    ensures 0 <= eq <= |alignment| && 0 <= x <= |alignment| && 0 <= ins <= |alignment| && 0 <= del <= |alignment|
  {
    ghost var cs := Columns(alignment, readData, refData, alignmentPositionStart);
    ghost var rest, ops := cs, alignment;
    eq, x, ins, del, alignmentScore, nonclippedLength := 0, 0, 0, 0, 0, 0;
    var readPos: nat, refPos: nat := 0, alignmentPositionStart;
    var prev: Option<CigarOp> := None;
    var k := 0;
    while k < |alignment|
      invariant 0 <= k <= |alignment| && ops == alignment[k..]
      invariant readPos + ReadSpan(ops) == ReadSpan(alignment)
      invariant refPos + RefSpan(ops) == alignmentPositionStart + RefSpan(alignment)
      invariant nonclippedLength == readPos
      invariant ValidOps(ops)
      invariant rest == Classify(ops, readData, refData, readPos, refPos)
      invariant eq + Count(rest, Eq) == Count(cs, Eq)
      invariant x + Count(rest, X) == Count(cs, X)
      invariant ins + Count(rest, I) == Count(cs, I)
      invariant del + Count(rest, D) == Count(cs, D)
      invariant alignmentScore + Score(rest, prev, p) == Score(cs, None, p)
    {
      assert ops[1..] == alignment[k + 1..];
      var op := alignment[k];
      var col: CigarOp;
      if op == OpInsert {
        col := I;
      } else if op == OpDelete {
        col := D;
      } else if readData[readPos] == refData[refPos] {
        col := Eq;
      } else {
        col := X;
      }
      WalkStep(ops, readData, refData, readPos, refPos, prev, p);
      assert rest[0] == col;
      match col {
        case Eq => eq := eq + 1;
        case X => x := x + 1;
        case I => ins := ins + 1;
        case D => del := del + 1;
      }
      alignmentScore := alignmentScore + ColumnScore(col, prev, p);
      prev := Some(col);
      if ConsumesRead(op) {
        readPos := readPos + 1;
        nonclippedLength := nonclippedLength + 1;
      }
      if ConsumesRef(op) {
        refPos := refPos + 1;
      }
      rest, ops := Classify(ops[1..], readData, refData, readPos, refPos), ops[1..];
      k := k + 1;
    }
    CountsPartition(cs);
    ClassifySpans(alignment, readData, refData, 0, alignmentPositionStart);
  }

  /** The reference sequences of the index: absolute start and length of each. */
  datatype RefEntry = RefEntry(start: int, length: nat)

  /** Verdict of the sanity check. */
  datatype Sanity = Sane | EmptyAlignment | InvalidOp(position: nat) | ReadOverrun | BadReferenceHit | ReferenceOverrun

  /** Position of the first invalid op code. */
  function FirstInvalid(ops: seq<byte>): (k: nat)
    requires !ValidOps(ops)
    ensures k < |ops| && !IsValidOp(ops[k])
    ensures forall j :: 0 <= j < k ==> IsValidOp(ops[j])
  {
    if !IsValidOp(ops[0]) then 0
    else
      assert forall j :: 0 <= j < |ops| - 1 ==> ops[1..][j] == ops[j + 1];
      1 + FirstInvalid(ops[1..])
  }

  /**
   * The verdict on an alignment checked against an optional read length and
   * an optional index, in which the alignment is placed on reference hitId at
   * absolute position hitPos. A negative hitId or hitPos means that no hit was
   * supplied, and the reference is then not checked.
   */
  function SanityOf(ops: seq<byte>, readLength: Option<nat>, index: Option<seq<RefEntry>>, hitId: int, hitPos: int): Sanity
  {
    if ops == [] then EmptyAlignment
    else if !ValidOps(ops) then InvalidOp(FirstInvalid(ops))
    else if readLength.Some? && ReadSpan(ops) > readLength.value then ReadOverrun
    else if index.Some? && 0 <= hitId && 0 <= hitPos && hitId >= |index.value| then BadReferenceHit
    else if index.Some? && 0 <= hitId && 0 <= hitPos &&
            !(index.value[hitId].start <= hitPos &&
                             hitPos + RefSpan(ops) <= index.value[hitId].start + index.value[hitId].length)
    then ReferenceOverrun
    else Sane
  }

  /**
   * Walks an alignment, counting the read and reference bases it consumes,
   * and rejects it when it is empty, holds an invalid op code, or runs past
   * the read or the reference it is placed on.
   */
  method CheckAlignmentSane(alignment: seq<byte>, readLength: Option<nat>, index: Option<seq<RefEntry>>,
                            referenceHitId: int, referenceHitPos: int)
    returns (s: Sanity)
    ensures s == SanityOf(alignment, readLength, index, referenceHitId, referenceHitPos)
  {
    if |alignment| == 0 {
      return EmptyAlignment;
    }
    var readUsed, refUsed := 0, 0;
    var k := 0;
    while k < |alignment|
      invariant 0 <= k <= |alignment|
      invariant forall j :: 0 <= j < k ==> IsValidOp(alignment[j])
      invariant readUsed + ReadSpan(alignment[k..]) == ReadSpan(alignment)
      invariant refUsed + RefSpan(alignment[k..]) == RefSpan(alignment)
    {
      assert alignment[k..][1..] == alignment[k + 1..];
      var op := alignment[k];
      if !IsValidOp(op) {
        return InvalidOp(k);
      }
      if ConsumesRead(op) {
        readUsed := readUsed + 1;
      }
      if ConsumesRef(op) {
        refUsed := refUsed + 1;
      }
      k := k + 1;
    }
    if readLength.Some? && readUsed > readLength.value {
      return ReadOverrun;
    }
    if index.Some? && referenceHitId >= 0 && referenceHitPos >= 0 {
      var refs := index.value;
      if referenceHitId >= |refs| {
        return BadReferenceHit;
      }
      var entry := refs[referenceHitId];
      if referenceHitPos < entry.start || referenceHitPos + refUsed > entry.start + entry.length {
        return ReferenceOverrun;
      }
    }
    return Sane;
  }

  /**
   * An alignment the sanity check passes against the read and the reference
   * it is placed on can be recounted, and its counts then agree with the
   * bounds: '=' + 'X' + 'I' read bases at most the read length, '=' + 'X' + 'D'
   * reference bases inside the reference.
   */
  lemma SaneAlignmentFits(ops: seq<byte>, read: seq<int8>, refData: seq<int8>, index: seq<RefEntry>, hitId: int, hitPos: int)
    requires 0 <= hitId && 0 <= hitPos
    requires SanityOf(ops, Some(|read|), Some(index), hitId, hitPos) == Sane
    requires forall j :: 0 <= j < |index| ==> 0 <= index[j].start && index[j].start + index[j].length <= |refData|
    ensures hitId < |index|
    ensures ValidOps(ops) && ReadSpan(ops) <= |read| && hitPos + RefSpan(ops) <= |refData|
    ensures var cs := Columns(ops, read, refData, hitPos);
            Count(cs, Eq) + Count(cs, X) + Count(cs, I) <= |read| &&
            index[hitId].start <= hitPos &&
            hitPos + Count(cs, Eq) + Count(cs, X) + Count(cs, D) <= index[hitId].start + index[hitId].length
  {
    ClassifySpans(ops, read, refData, 0, hitPos);
  }

  /**
   * Conversely, the check rejects every alignment that does not fit: one that
   * consumes more read bases than the read has or, placed by a supplied hit,
   * starts before its hit reference or runs past that reference's end,
   * whatever its op codes.
   */
  lemma InsaneWhenOverrunning(ops: seq<byte>, readLength: nat, index: seq<RefEntry>, hitId: int, hitPos: int)
    requires ReadSpan(ops) > readLength ||
             (0 <= hitId < |index| && 0 <= hitPos &&
              (hitPos < index[hitId].start || hitPos + RefSpan(ops) > index[hitId].start + index[hitId].length))
    ensures SanityOf(ops, Some(readLength), Some(index), hitId, hitPos) != Sane
  {
  }

  // ---------------------------------------------------------------------
  // Clipping an alignment on a circular reference

  /**
   * Index of the first op that consumes a reference base lying past refEnd,
   * when the ops start at reference position pos; |ops| when there is none.
   */
  function SplitPoint(ops: seq<byte>, pos: int, refEnd: int): (k: nat)
    ensures k <= |ops|
    ensures k < |ops| ==> ConsumesRef(ops[k])
  {
    if ops == [] then 0
    else if ConsumesRef(ops[0]) && pos > refEnd then 0
    else 1 + SplitPoint(ops[1..], if ConsumesRef(ops[0]) then pos + 1 else pos, refEnd)
  }

  /**
   * The part before the split point covers reference positions pos up to at
   * most refEnd; when the split point falls inside the ops, the left part ends
   * exactly at refEnd, so the right part begins at the origin.
   */
  lemma {:induction false} SplitPointBounds(ops: seq<byte>, pos: int, refEnd: int)
    requires pos <= refEnd + 1
    ensures pos + RefSpan(ops[..SplitPoint(ops, pos, refEnd)]) <= refEnd + 1
    ensures SplitPoint(ops, pos, refEnd) < |ops| ==> pos + RefSpan(ops[..SplitPoint(ops, pos, refEnd)]) == refEnd + 1
    decreases |ops|
  {
    var k := SplitPoint(ops, pos, refEnd);
    if ops == [] || (ConsumesRef(ops[0]) && pos > refEnd) {
      assert ops[..k] == [];
    } else {
      var pos' := if ConsumesRef(ops[0]) then pos + 1 else pos;
      SplitPointBounds(ops[1..], pos', refEnd);
      assert ops[..k] == [ops[0]] + ops[1..][..k - 1];
      assert ops[..k][1..] == ops[1..][..k - 1];
    }
  }

  /** Every reference base of the right part lies past refEnd. */
  lemma SplitPointRightPart(ops: seq<byte>, pos: int, refEnd: int)
    requires pos <= refEnd + 1
    ensures var k := SplitPoint(ops, pos, refEnd);
            pos + RefSpan(ops[..k]) + RefSpan(ops[k..]) == pos + RefSpan(ops) &&
            (k < |ops| ==> pos + RefSpan(ops[..k]) > refEnd)
  {
    var k := SplitPoint(ops, pos, refEnd);
    SplitPointBounds(ops, pos, refEnd);
    assert ops[..k] + ops[k..] == ops;
    SpanAppend(ops[..k], ops[k..]);
  }

  /**
   * An ungapped alignment of n columns starting at pos <= refEnd + 1 splits
   * after its refEnd + 1 - pos columns (10 columns when a 100-base read starts
   * at position 540 of a 550-base circular reference).
   */
  lemma {:induction false} SplitOfUngapped(ops: seq<byte>, pos: int, refEnd: int)
    requires forall k :: 0 <= k < |ops| ==> ops[k] == OpMatch || ops[k] == OpMismatch
    requires pos <= refEnd + 1 && refEnd + 1 - pos < |ops|
    ensures SplitPoint(ops, pos, refEnd) == refEnd + 1 - pos
    decreases |ops|
  {
    if pos <= refEnd {
      SplitOfUngapped(ops[1..], pos + 1, refEnd);
    }
  }

  datatype ClipStatus = Clipped | EmptyAlignmentToClip | NotCrossingOrigin

  /** A fresh buffer holding a[from..to]. */
  method CopyRange(a: array<byte>, from: int, to: int) returns (b: array<byte>)
    requires 0 <= from <= to <= a.Length
    ensures fresh(b) && b[..] == a[from..to]
  {
    b := new byte[to - from];
    var j := 0;
    while j < to - from
      invariant 0 <= j <= to - from
      invariant forall m :: 0 <= m < j ==> b[m] == a[from + m]
    {
      b[j] := a[from + j];
      j := j + 1;
    }
  }

  /**
   * When an alignment starting at pos <= refEnd crosses refEnd, its left part
   * covers exactly the reference bases pos..refEnd and its right part the
   * bases after refEnd up to the alignment's last reference base.
   */
  lemma SplitSpans(ops: seq<byte>, pos: int, refEnd: int)
    requires pos <= refEnd && SplitPoint(ops, pos, refEnd) < |ops|
    ensures var k := SplitPoint(ops, pos, refEnd);
            RefSpan(ops[..k]) == refEnd - pos + 1 &&
            RefSpan(ops[k..]) == (pos + RefSpan(ops) - 1) - refEnd
  {
    SplitPointBounds(ops, pos, refEnd);
    SplitPointRightPart(ops, pos, refEnd);
  }

  /**
   * Splits an alignment on a circular reference at the reference's end.
   *
   * alignmentStart and alignmentEnd are the first and last reference bases
   * the alignment covers and positionOfRefEnd the last base of the reference
   * before its origin, all counted in the window the read was aligned to.
   * The window starts splitRegionStartOffset bases into the reference, and the
   * reference starts at absolute position referenceStart. The left part is
   * every op up to the first one that consumes a base past positionOfRefEnd;
   * the right part is the rest, placed from the origin onwards. Positions
   * returned are absolute.
   */
  method ClipCircularAlignment(alignmentStart: int, alignmentEnd: int, alignment: array<byte>, alignmentLength: int,
                               referenceStart: int, splitRegionStartOffset: int, positionOfRefEnd: int)
    returns (status: ClipStatus,
             left: array<byte>, leftLength: int, leftPosStart: int, leftPosEnd: int,
             right: array<byte>, rightLength: int, rightPosStart: int, rightPosEnd: int)
    requires alignmentLength <= alignment.Length
    ensures fresh(left) && fresh(right)
    ensures status == EmptyAlignmentToClip <==> alignmentLength <= 0
    ensures status == Clipped <==>
              0 < alignmentLength && alignmentStart <= positionOfRefEnd &&
              SplitPoint(alignment[..alignmentLength], alignmentStart, positionOfRefEnd) < alignmentLength
    ensures status == Clipped ==>
              var ops := alignment[..alignmentLength];
              var k := SplitPoint(ops, alignmentStart, positionOfRefEnd);
              leftLength == left.Length == k && rightLength == right.Length == alignmentLength - k &&
              left[..] == ops[..k] && right[..] == ops[k..] && left[..] + right[..] == ops &&
              leftPosStart == referenceStart + splitRegionStartOffset + alignmentStart &&
              leftPosEnd == referenceStart + splitRegionStartOffset + positionOfRefEnd &&
              rightPosStart == referenceStart &&
              rightPosEnd == referenceStart + alignmentEnd - positionOfRefEnd - 1
    ensures status == Clipped ==> leftPosEnd - leftPosStart + 1 == RefSpan(left[..])
    ensures status == Clipped && alignmentEnd == alignmentStart + RefSpan(alignment[..alignmentLength]) - 1 ==>
              rightPosEnd - rightPosStart + 1 == RefSpan(right[..])
    ensures status != Clipped ==>
              left.Length == 0 && right.Length == 0 && leftLength == 0 && rightLength == 0 &&
              leftPosStart == 0 && leftPosEnd == 0 && rightPosStart == 0 && rightPosEnd == 0
  {
    left, right := new byte[0], new byte[0];
    leftLength, leftPosStart, leftPosEnd := 0, 0, 0;
    rightLength, rightPosStart, rightPosEnd := 0, 0, 0;
    if alignmentLength <= 0 {
      return EmptyAlignmentToClip, left, leftLength, leftPosStart, leftPosEnd,
             right, rightLength, rightPosStart, rightPosEnd;
    }
    if alignmentStart > positionOfRefEnd {
      return NotCrossingOrigin, left, leftLength, leftPosStart, leftPosEnd,
             right, rightLength, rightPosStart, rightPosEnd;
    }
    ghost var ops := alignment[..alignmentLength];
    var k := 0;
    var currentPosOnRef := alignmentStart;
    while k < alignmentLength && !(ConsumesRef(alignment[k]) && currentPosOnRef > positionOfRefEnd)
      invariant 0 <= k <= alignmentLength
      invariant alignmentStart <= currentPosOnRef <= positionOfRefEnd + 1
      invariant SplitPoint(ops, alignmentStart, positionOfRefEnd) == k + SplitPoint(ops[k..], currentPosOnRef, positionOfRefEnd)
    {
      assert ops[k..][1..] == ops[k + 1..];
      if ConsumesRef(alignment[k]) {
        currentPosOnRef := currentPosOnRef + 1;
      }
      k := k + 1;
    }
    if k == alignmentLength {
      return NotCrossingOrigin, left, leftLength, leftPosStart, leftPosEnd,
             right, rightLength, rightPosStart, rightPosEnd;
    }
    assert SplitPoint(ops, alignmentStart, positionOfRefEnd) == k;
    left := CopyRange(alignment, 0, k);
    right := CopyRange(alignment, k, alignmentLength);
    assert left[..] == ops[..k];
    assert right[..] == ops[k..];
    assert left[..] + right[..] == ops;
    SplitSpans(ops, alignmentStart, positionOfRefEnd);
    leftLength, rightLength := k, alignmentLength - k;
    leftPosStart := referenceStart + splitRegionStartOffset + alignmentStart;
    leftPosEnd := referenceStart + splitRegionStartOffset + currentPosOnRef - 1;
    rightPosStart := referenceStart + (currentPosOnRef - positionOfRefEnd - 1);
    rightPosEnd := referenceStart + (alignmentEnd - positionOfRefEnd - 1);
    status := Clipped;
  }
}
