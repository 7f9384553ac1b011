# GraphMap alignment accounting and seed chaining, in Dafny

This project models two pieces of the GraphMap read mapper and proves
properties about them.

1. **Alignment-operation accounting** (`local_realignment.dfy`, module
   `LocalRealignment`). An alignment is a vector of op bytes in the edlib
   convention: 0 `=`, 1 `I`, 2 `D`, 3 `X`. The ops have the CIGAR semantics
   of section 1.4 of the SAMv1 format specification: `=`, `X` and `I`
   consume the read; `=`, `X` and `D` consume the reference. The module
   models three operations:
   - `CountAlignmentOperations` walks the ops against the read and
     reference bytes. It recounts `=`, `X`, `I` and `D`, recomputes the
     score and returns the non-clipped (read-consumed) length.
   - `CheckAlignmentSane` validates an op vector against an optional read
     length and an optional reference index.
   - `ClipCircularAlignment` splits an alignment on a circular reference,
     at the reference end, into fresh left and right buffers with their own
     positions.

2. **Driver utilities and LCSk chaining** (`graphmap.dfy`, module
   `GraphMap`). This module models three operations:
   - the suffix test `StringEndsWith`;
   - `FilterFileList`, which splits a file list into read files (fasta,
     fastq, fa, fq) and SAM files;
   - `CalcLCSFromLocalScores`, which picks the heaviest co-linear chain of
     seed anchors, optionally restricted to a diagonal band (the L1 filter).

Conventions of the model:
- **Column classification.** A match/mismatch op code decides nothing by
  itself. `CountAlignmentOperations` classifies each match or mismatch
  column as `=` or `X` by comparing the read and reference symbols.
- **Score.** The score is computed with affine gaps:
  - `+match` per `=`;
  - `-mismatch` per `X`;
  - `-gap_open` for the first op of a run of `I` (or of `D`);
  - `-gap_extend` for each further op of that run.

  `ScoreByCounts` proves that this score is a function of the four counts
  and the number of gap openings alone.
- **Chains.** A chain is a sequence of anchors, each lying wholly after
  the previous one on both the read and the reference. This is stricter
  than "non-decreasing on the reference". It is the LCSk++ notion of
  co-linear, non-overlapping k-mer matches. A chain's weight is the number
  of read bases its anchors cover.

## Model

| member | source | states |
|---|---|---|
| LocalRealignment.CountAlignmentOperations | src/alignment/local_realignment.h:93-95 | The counts are those of the classified columns. Every op is counted exactly once (eq+x+i+d is the alignment length). The non-clipped length equals eq+x+i, which is the read span. eq+x+d is the reference span. Each count lies between 0 and the alignment length. The score is the affine score of the columns. Together with `ClassifyAt`, a match or mismatch op is counted in eq exactly when the read and reference symbols it aligns agree, and in x otherwise. |
| LocalRealignment.ClassifySpans | src/alignment/local_realignment.h:93-95 | For every sane op vector: the `=`, `X` and `I` columns sum to the read bases consumed, and the `=`, `X` and `D` columns sum to the reference bases consumed. |
| LocalRealignment.CountsPartition | src/alignment/local_realignment.h:95 | Every column is counted in exactly one of the four counts. |
| LocalRealignment.ScoreByCounts | src/alignment/local_realignment.h:94-95 | The score is eq·match − x·mismatch − opens·gap_open − (i+d−opens)·gap_extend. So it depends only on the counts, the number of gap openings and the four constants. |
| LocalRealignment.GapOpens | src/alignment/local_realignment.h:94 | There are never more gap openings than gap columns. |
| LocalRealignment.AllEqScore | src/alignment/local_realignment.h:94-95 | n `=` columns are counted as n matches and score n×match. |
| LocalRealignment.ClassifyAt | src/alignment/local_realignment.h:93 | In any alignment, gapped or not, the match or mismatch column k compares the read symbol at the read position after ReadSpan(ops[..k]) bases with the reference symbol after RefSpan(ops[..k]) bases. Both positions are in bounds, and the column is `=` if and only if the two symbols agree. |
| LocalRealignment.WalkStep | src/alignment/local_realignment.h:93-95 | One step of the walk counts and scores the first op's column. The walk then continues over the remaining ops from read and reference positions advanced by what that op consumes, and the remaining spans shrink accordingly. |
| LocalRealignment.UngappedColumns | src/alignment/local_realignment.h:93 | For an alignment of only match/mismatch ops, each column is `=` exactly when the read and reference symbols at that column agree, and both spans equal the alignment length. |
| LocalRealignment.PerfectMatchScore | src/alignment/local_realignment.h:93-95 | An ungapped alignment over identical read and reference windows classifies as all `=`, and scores length×match. |
| LocalRealignment.ReadSpan | src/alignment/local_realignment.h:95 | The read bases consumed never exceed the number of ops. |
| LocalRealignment.RefSpan | src/alignment/local_realignment.h:93 | The reference bases consumed never exceed the number of ops. |
| LocalRealignment.SpanAppend | src/alignment/local_realignment.h:43-48 | Read and reference spans add up over concatenation. |
| LocalRealignment.Classify | src/alignment/local_realignment.h:93 | One column per op, and a column is `I` (respectively `D`) exactly when its op code is insertion (deletion). |
| LocalRealignment.Count | src/alignment/local_realignment.h:95 | A count never exceeds the number of columns. |
| LocalRealignment.CheckAlignmentSane | src/alignment/local_realignment.h:92 | The result equals the sanity verdict, checked in this order: empty alignment, first invalid op code, read overrun (when a read length is supplied). When an index and a hit are supplied, a reference hit id out of range comes next, then a reference overrun: the position lies before the hit reference or the span runs past its end. A negative hit id or hit position, the default −1, means that no hit was supplied, and the reference is then not checked. |
| LocalRealignment.FirstInvalid | src/alignment/local_realignment.h:92 | The reported position holds an invalid op code, and every op before it is valid. |
| LocalRealignment.SaneAlignmentFits | src/alignment/local_realignment.h:92-93 | A sane alignment checked against a read, an index and a supplied hit fits them: the hit id names a reference of the index, its op codes are valid, it fits inside the read and the hit reference, and `CountAlignmentOperations` may be applied to it (the counts cover the spans). |
| LocalRealignment.InsaneWhenOverrunning | src/alignment/local_realignment.h:92 | Whatever its op codes, an alignment is never sane when its read span exceeds the read length. With a hit supplied, it is never sane when it starts before its hit reference or when its reference span runs past the end of that reference. |
| LocalRealignment.SplitPoint | src/alignment/local_realignment.h:43-48 | The split index lies within the alignment, and when it lies inside, the op there consumes the reference. |
| LocalRealignment.SplitPointBounds | src/alignment/local_realignment.h:44-46 | The left part ends at or before `position_of_ref_end`. When the split falls inside the alignment it covers exactly up to `position_of_ref_end`. |
| LocalRealignment.SplitPointRightPart | src/alignment/local_realignment.h:46-48 | The reference spans of the two parts add up to the whole. When the split falls inside the alignment, the right part's first reference base lies past `position_of_ref_end`, on the far side of the origin. |
| LocalRealignment.SplitOfUngapped | src/alignment/local_realignment.h:43-48 | For an ungapped alignment that crosses the origin, the split falls exactly after `position_of_ref_end − alignment_start + 1` ops. |
| LocalRealignment.SplitSpans | src/alignment/local_realignment.h:44-48 | When an alignment that starts at or before the reference end crosses it, the left part covers exactly the reference bases from the start to the reference end. The right part covers exactly the bases from the origin to the alignment's last reference base. |
| LocalRealignment.CopyRange | src/alignment/local_realignment.h:45-47 | The new buffer is fresh and holds exactly the ops of the given range. |
| LocalRealignment.ClipCircularAlignment | src/alignment/local_realignment.h:43-48 | The alignment is clipped exactly when it is non-empty, starts at or before the reference end and crosses it. Then: the left and right buffers are fresh and hold the ops before and after the split; their lengths add up to `alignment_length`; their concatenation is the input; the left part spans up to the reference end; the right part starts at `reference_start`. The left part's start and end positions cover exactly its reference span. When `alignment_end` is the alignment's last reference base, the right part's start and end positions cover exactly its reference span. Otherwise the outputs are empty and the status says why. |
| GraphMap.StringEndsWith | src/graphmap/graphmap.h:72-73 | A true result implies the ending is no longer than the string. An empty ending is always a suffix. |
| GraphMap.StringEndsWithIsSuffix | src/graphmap/graphmap.h:72-73 | The suffix test holds if and only if the ending is a suffix under the independent recursive definition. |
| GraphMap.IsSuffixLength | src/graphmap/graphmap.h:72-73 | A suffix is never longer than the string. |
| GraphMap.StringEndsWithConcat | src/graphmap/graphmap.h:72-73 | p+e always ends with e, and a string ending with e is its head followed by e. |
| GraphMap.EndsWithLastChar | src/graphmap/graphmap.h:72-74 | A string ending with a non-empty e ends with e's last character. |
| GraphMap.ReadAndSamDisjoint | src/graphmap/graphmap.h:74-75 | No file name is both a read file and a SAM file. |
| GraphMap.SelectReadFiles | src/graphmap/graphmap.h:74-75 | The read-file selection is no longer than the list. |
| GraphMap.SelectSamFiles | src/graphmap/graphmap.h:74-75 | The SAM-file selection is no longer than the list. |
| GraphMap.FilterFileList | src/graphmap/graphmap.h:74-75 | The outputs are the read-file and SAM-file selections in list order. A file is in the read output if and only if it is in the input and ends in fasta, fastq, fa or fq. A file is in the SAM output if and only if it is in the input and ends in sam. No file is in both, every other file is dropped, and the outputs together are no longer than the input. |
| GraphMap.SelectionMembers | src/graphmap/graphmap.h:74-75 | The same membership (both directions), disjointness and size facts, for the selection functions over every list. |
| GraphMap.CalcLCSFromLocalScores | src/graphmap/graphmap.h:83-84 | The returned indices form a chain: valid anchor indices of eligible anchors, each lying wholly after the previous one on the read and the reference. The returned length is that chain's weight, and no chain weighs more. The length is non-negative. It is zero exactly when the chain is empty, which happens exactly when no anchor passes the L1 filter. Among the heaviest chains, none ends further along the reference than the returned one, and none ending at the same reference position ends with a longer anchor. |
| GraphMap.ChainIncreasing | src/graphmap/graphmap.h:83-84 | In a chain, every anchor lies strictly before every later one, in both read and reference position. |
| GraphMap.ChainIncreasingFrom | src/graphmap/graphmap.h:83-84 | An anchor of a chain ends before any later anchor starts, on the read and on the reference. |
| GraphMap.Weight | src/graphmap/graphmap.h:84 | A chain weighs at least its number of anchors. |
| GraphMap.WeightSnoc | src/graphmap/graphmap.h:84 | Appending an anchor adds its length to the weight. |
| GraphMap.ChainInit | src/graphmap/graphmap.h:83-84 | A chain without its last anchor is a chain ending at the predecessor, and that predecessor precedes the last anchor. |
| GraphMap.ChainCons | src/graphmap/graphmap.h:83-84 | An eligible anchor placed before a chain it precedes gives a chain whose weight is one anchor-length more. |
| GraphMap.ChainEndInOrder | src/graphmap/graphmap.h:83-84 | The last anchor of every chain is among the visited (eligible) anchors. |
| GraphMap.InsertSorted | src/graphmap/graphmap.h:83-84 | Inserting an anchor at its read-position place keeps the visiting order sorted and adds exactly that anchor. |
| GraphMap.InsertByRead | src/graphmap/graphmap.h:83-84 | Inserting an anchor into a sorted visiting order keeps it sorted by read position, and the result's multiset is the old one plus the new anchor. |
| GraphMap.SortEligibleByRead | src/graphmap/graphmap.h:83-84 | The visiting order lists exactly the anchors passing the L1 filter, each once, sorted by read position. |
| GraphMap.TwoOccurrences | src/graphmap/graphmap.h:83-84 | An anchor listed at two positions occurs at least twice in the list's multiset. |
| GraphMap.DistinctPositions | src/graphmap/graphmap.h:83-84 | A list in which no anchor occurs twice holds different anchors at different positions. |
| GraphMap.BestPredecessor | src/graphmap/graphmap.h:83-84 | The chosen predecessor precedes the current anchor and carries the best value among all visited anchors that do. When no visited anchor precedes it, the result is −1 with value 0. |
| GraphMap.ChainBoundStep | src/graphmap/graphmap.h:83-84 | No chain ending at the current anchor weighs more than its length plus the best preceding value. |
| GraphMap.BackPointersExtend | src/graphmap/graphmap.h:83-84 | Recording the value and back-pointer of the next anchor keeps every back-pointer pointing to an earlier, preceding anchor whose value plus the current length is the current value. |
| GraphMap.ValuesBoundExtend | src/graphmap/graphmap.h:83-84 | Recording the value keeps every visited anchor's value an upper bound on the chains ending there. |
| GraphMap.RecordValue | src/graphmap/graphmap.h:83-84 | One DP step changes only the entries of the current position. Its value is its length plus the best value of a visited anchor that precedes it, and its back-pointer names that anchor. When no visited anchor precedes it, the value is its length alone and the back-pointer is −1. |
| GraphMap.ChainValues | src/graphmap/graphmap.h:83-84 | After the DP, every back-pointer is consistent and every value bounds the chains ending at its anchor. |
| GraphMap.HighestValue | src/graphmap/graphmap.h:83-84 | The selected position holds the highest value. Among equal values it holds the anchor furthest along the reference, then the longest anchor, and among those the first visited: every earlier position has a lower value, lies earlier on the reference or is shorter. |
| GraphMap.ChainsBoundedByMaximum | src/graphmap/graphmap.h:83-84 | A value at least every visited value bounds every chain. |
| GraphMap.ReadBackChain | src/graphmap/graphmap.h:83-84 | Following the back-pointers from a visited anchor yields a non-empty chain ending there, whose weight is that anchor's value. |

## Left out

- `GetFileList_` and `OpenOutSAMFile_`: these do directory listing and file opening, so they are I/O.
- `Run`, `BuildIndex`, `ProcessReadsFromSingleFile`, `ProcessSequenceFileInParallel`: these do index loading, file I/O and parallel dispatch of reads.
- `GenerateSAMHeader_`, `GenerateUnmappedSamLine_`, `CollectSAMLines`, `CollectAMOSLines`: these are output formatting.
- Region selection, `GraphMap_`, `ProcessKmerCacheFriendly_` and the post-processing of regions: these need the index, score-registry and mapping-data classes, which are not part of this model.
- `CalculateL1ParametersWithMaximumDeviation_` and `CheckRegionSearchFinished_`: these work in floating point.
- The E-value parameters: this is statistical parameter loading in floating point.
- `LocalRealignmentLinear`, `LocalRealignmentCircular`, `HybridRealignment`, `AnchoredAlignment*` and `CalcEditDistance*`: these orchestrate aligners passed as function pointers, whose code is not part of this model. The model covers only the accounting applied to an aligner's output.
- CountAlignmentOperations: `reference_hit_id`, `orientation` and the integer return status are not modelled.
  - The caller must supply a sane op vector that fits the read and the reference. C pointers carry no length, so the unchecked out-of-bounds read the source would make has no counterpart in the model.
  - A 64-bit overflow of the score is not modelled.
- CountAlignmentOperations: the model treats the op vector as read-only. Any rewrite the source might make through its non-const reference is not modelled, for example replacing each match/mismatch code by the `=` or `X` it was classified as.
- CheckAlignmentSane: rejects only overruns. An alignment that leaves read bases unconsumed is sane, and `CountAlignmentOperations` reports those bases as clipped.
- CheckAlignmentSane: the model treats the op vector as read-only. Any rewrite the source might make through its non-const reference is not modelled.
- CheckAlignmentSane: the read and the index are represented only by the lengths the check uses, an optional read length and an optional list of (start, length) reference entries. Diagnostic logging is dropped.
- ClipCircularAlignment: `read_length` and `reference_length` do not influence the result.
  - `alignment_start`, `alignment_end` and `position_of_ref_end` are read as positions relative to the aligned region.
  - The integer return code becomes a three-way status.
  - The split falls at the first op that consumes a reference base past `position_of_ref_end`. An insertion directly after the last reference base of the left part therefore stays in the left part. For example, `[=, I, =]` split at reference position 0 keeps `[=, I]` on the left. The declaration does not fix this choice.
- CalcLCSFromLocalScores: anchors are a sequence of (read start, reference start, length) records, not the source's vertex arrays.
  - The Fenwick-tree prefix maximum over reference ranks is replaced by a linear scan over the visited anchors. The chains it can choose and their values are the same, but the quadratic running time is not the source's O(n log n).
  - Among heaviest chains ending at the same reference position with anchors of the same length, the contract does not say which one is returned.
  - The result is an exact LCSk++ optimum over non-overlapping anchors. Continuation of overlapping k-mers on the same diagonal is not modelled.
- FilterFileList: the two outputs start empty. The source appends to the caller's vectors, and any earlier contents are not modelled.
