/**
 * The small string utilities of the GraphMap driver (suffix test, selection
 * of read and SAM files from a file list) and the LCSk seed chaining that
 * picks, among the anchors of one candidate region, the heaviest chain that is
 * co-linear on the read and on the reference.
 */
module GraphMap {

  // ---------------------------------------------------------------------
  // Suffix test and file-list filtering

  /** True when ending is a suffix of fullString. */
  function StringEndsWith(fullString: string, ending: string): (r: bool)
    ensures r ==> |ending| <= |fullString|
    ensures |ending| == 0 ==> r
  {
    |fullString| >= |ending| && fullString[|fullString| - |ending|..] == ending
  }

  /** Reference definition of "e is a suffix of s": e is s, or a suffix of s without its head. */
  ghost predicate IsSuffix(e: string, s: string)
    decreases |s|
  {
    e == s || (|s| > 0 && IsSuffix(e, s[1..]))
  }

  lemma {:induction false} IsSuffixLength(e: string, s: string)
    requires IsSuffix(e, s)
    ensures |e| <= |s|
    decreases |s|
  {
    if e != s {
      IsSuffixLength(e, s[1..]);
    }
  }

  /** The suffix test agrees with the reference definition, in both directions. */
  lemma {:induction false} StringEndsWithIsSuffix(s: string, e: string)
    ensures StringEndsWith(s, e) <==> IsSuffix(e, s)
    decreases |s|
  {
    if |e| == |s| {
      assert s[|s| - |e|..] == s;
      if IsSuffix(e, s) && e != s {
        IsSuffixLength(e, s[1..]);
      }
    } else if |e| < |s| {
      StringEndsWithIsSuffix(s[1..], e);
      assert s[1..][|s| - 1 - |e|..] == s[|s| - |e|..];
    } else {
      if IsSuffix(e, s) {
        IsSuffixLength(e, s);
      }
    }
  }

  /** Whatever is put in front of e, the result ends with e; and a string that ends with e is its own head plus e. */
  lemma StringEndsWithConcat(p: string, e: string, s: string)
    ensures StringEndsWith(p + e, e)
    ensures StringEndsWith(s, e) ==> s == s[..|s| - |e|] + e
  {
    assert (p + e)[|p + e| - |e|..] == e;
    if StringEndsWith(s, e) {
      assert s == s[..|s| - |e|] + s[|s| - |e|..];
    }
  }

  /** A file of reads: one ending in fasta, fastq, fa or fq. */
  predicate IsReadFile(f: string)
  {
    StringEndsWith(f, "fasta") || StringEndsWith(f, "fastq") || StringEndsWith(f, "fa") || StringEndsWith(f, "fq")
  }

  /** A SAM file: one ending in sam. */
  predicate IsSamFile(f: string)
  {
    StringEndsWith(f, "sam")
  }

  /** A string that ends with a non-empty e ends with e's last character. */
  lemma EndsWithLastChar(f: string, e: string)
    requires |e| > 0
    ensures StringEndsWith(f, e) ==> |f| > 0 && f[|f| - 1] == e[|e| - 1]
  {
    if StringEndsWith(f, e) {
      assert f[|f| - |e|..][|e| - 1] == f[|f| - 1];
    }
  }

  /** No file name is both a read file and a SAM file: they end in a or q, and in m. */
  lemma ReadAndSamDisjoint(f: string)
    ensures !(IsReadFile(f) && IsSamFile(f))
  {
    EndsWithLastChar(f, "sam");
    EndsWithLastChar(f, "fasta");
    EndsWithLastChar(f, "fastq");
    EndsWithLastChar(f, "fa");
    EndsWithLastChar(f, "fq");
  }

  /** The read files of a list, in list order. */
  function SelectReadFiles(files: seq<string>): (r: seq<string>)
    ensures |r| <= |files|
  {
    if files == [] then []
    else SelectReadFiles(files[..|files| - 1]) + (if IsReadFile(files[|files| - 1]) then [files[|files| - 1]] else [])
  }

  /** The SAM files of a list that are not read files, in list order. */
  function SelectSamFiles(files: seq<string>): (r: seq<string>)
    ensures |r| <= |files|
  {
    if files == [] then []
    else
      var f := files[|files| - 1];
      SelectSamFiles(files[..|files| - 1]) + (if !IsReadFile(f) && IsSamFile(f) then [f] else [])
  }

  /**
   * Splits a file list into the read files (ending in fasta, fastq, fa or
   * fq) and the SAM files (ending in sam), keeping their order and dropping
   * every other file.
   */
  method FilterFileList(files: seq<string>) returns (retReadFiles: seq<string>, retSamFiles: seq<string>)
    ensures retReadFiles == SelectReadFiles(files)
    ensures retSamFiles == SelectSamFiles(files)
    ensures forall f :: f in retReadFiles <==> f in files && IsReadFile(f)
    ensures forall f :: f in retSamFiles <==> f in files && IsSamFile(f)
    ensures forall f :: !(f in retReadFiles && f in retSamFiles)
    ensures |retReadFiles| + |retSamFiles| <= |files|
  {
    retReadFiles, retSamFiles := [], [];
    var i := 0;
    while i < |files|
      invariant 0 <= i <= |files|
      invariant retReadFiles == SelectReadFiles(files[..i])
      invariant retSamFiles == SelectSamFiles(files[..i])
    {
      assert files[..i + 1][..i] == files[..i];
      var f := files[i];
      if StringEndsWith(f, "fasta") || StringEndsWith(f, "fastq") || StringEndsWith(f, "fa") || StringEndsWith(f, "fq") {
        retReadFiles := retReadFiles + [f];
      } else if StringEndsWith(f, "sam") {
        retSamFiles := retSamFiles + [f];
      }
      i := i + 1;
    }
    assert files[..|files|] == files;
    SelectionMembers(files);
  }

  /**
   * What the two selections hold: the read files of the list, the SAM files
   * of the list, no file in both, and no more files than the list.
   */
  lemma {:induction false} SelectionMembers(files: seq<string>)
    ensures forall f :: f in SelectReadFiles(files) <==> f in files && IsReadFile(f)
    ensures forall f :: f in SelectSamFiles(files) <==> f in files && IsSamFile(f)
    ensures forall f :: !(f in SelectReadFiles(files) && f in SelectSamFiles(files))
    ensures |SelectReadFiles(files)| + |SelectSamFiles(files)| <= |files|
  {
    if files != [] {
      var init, f := files[..|files| - 1], files[|files| - 1];
      SelectionMembers(init);
      assert files == init + [f];
      ReadAndSamDisjoint(f);
      forall g | g in files && IsSamFile(g) ensures g in SelectSamFiles(files) {
        ReadAndSamDisjoint(g);
      }
      forall g | g in SelectSamFiles(files) ensures !IsReadFile(g) || g !in SelectReadFiles(files) {
        ReadAndSamDisjoint(g);
      }
    }
  }

  // ---------------------------------------------------------------------
  // LCSk chaining of anchors

  type SeedLength = n: int | n >= 1 witness 1

  /** A seed hit: length bases of the read from readStart match the reference from refStart. */
  datatype Anchor = Anchor(readStart: nat, refStart: nat, length: SeedLength)

  /**
   * The L1 filter: when enabled, only anchors whose diagonal (reference
   * position minus read position) lies within allowedDist of l take part.
   */
  datatype L1Filter = L1Filter(enabled: bool, l: int, allowedDist: int)

  predicate Eligible(a: Anchor, f: L1Filter)
  {
    !f.enabled || (f.l - f.allowedDist <= a.refStart - a.readStart <= f.l + f.allowedDist)
  }

  /** a comes before b on both the read and the reference, without overlapping it. */
  predicate Precedes(a: Anchor, b: Anchor)
  {
    a.readStart + a.length <= b.readStart && a.refStart + a.length <= b.refStart
  }

  /** The anchor at position k - 1 of c precedes the one at position k. */
  ghost predicate Linked(anchors: seq<Anchor>, c: seq<nat>, k: int)
  {
    0 < k < |c| && c[k - 1] < |anchors| && c[k] < |anchors| && Precedes(anchors[c[k - 1]], anchors[c[k]])
  }

  /** c lists anchor indices forming a co-linear chain of eligible anchors. */
  ghost predicate IsChain(anchors: seq<Anchor>, f: L1Filter, c: seq<nat>)
  {
    (forall k :: 0 <= k < |c| ==> c[k] < |anchors| && Eligible(anchors[c[k]], f)) &&
    (forall k :: 0 < k < |c| ==> Linked(anchors, c, k))
  }

  /** c is a chain whose last anchor is j. */
  ghost predicate EndsAt(anchors: seq<Anchor>, f: L1Filter, c: seq<nat>, j: nat)
  {
    IsChain(anchors, f, c) && |c| > 0 && c[|c| - 1] == j
  }

  /** Number of read bases a chain covers. */
  function Weight(anchors: seq<Anchor>, c: seq<nat>): (w: int)
    requires forall k :: 0 <= k < |c| ==> c[k] < |anchors|
    ensures w >= |c|
  {
    if c == [] then 0 else anchors[c[0]].length + Weight(anchors, c[1..])
  }

  lemma {:induction false} WeightSnoc(anchors: seq<Anchor>, c: seq<nat>, j: nat)
    requires forall k :: 0 <= k < |c| ==> c[k] < |anchors|
    requires j < |anchors|
    ensures Weight(anchors, c + [j]) == Weight(anchors, c) + anchors[j].length
  {
    if c == [] {
      assert c + [j] == [j];
    } else {
      assert (c + [j])[1..] == c[1..] + [j];
      WeightSnoc(anchors, c[1..], j);
    }
  }

  /** Every anchor of a chain lies strictly before every later one, on the read and the reference. */
  lemma {:induction false} ChainIncreasing(anchors: seq<Anchor>, f: L1Filter, c: seq<nat>)
    requires IsChain(anchors, f, c)
    ensures forall i, j :: 0 <= i < j < |c| ==>
              anchors[c[i]].readStart < anchors[c[j]].readStart && anchors[c[i]].refStart < anchors[c[j]].refStart
  {
    forall i, j | 0 <= i < j < |c|
      ensures anchors[c[i]].readStart < anchors[c[j]].readStart && anchors[c[i]].refStart < anchors[c[j]].refStart
    {
      ChainIncreasingFrom(anchors, f, c, i, j);
    }
  }

  lemma {:induction false} ChainIncreasingFrom(anchors: seq<Anchor>, f: L1Filter, c: seq<nat>, i: nat, j: nat)
    requires IsChain(anchors, f, c) && i < j < |c|
    ensures anchors[c[i]].readStart + anchors[c[i]].length <= anchors[c[j]].readStart
    ensures anchors[c[i]].refStart + anchors[c[i]].length <= anchors[c[j]].refStart
    decreases j - i
  {
    assert Linked(anchors, c, j);
    if j > i + 1 {
      ChainIncreasingFrom(anchors, f, c, i, j - 1);
    }
  }

  /** Dropping the last anchor of a chain of two or more leaves a chain ending at its predecessor. */
  lemma ChainInit(anchors: seq<Anchor>, f: L1Filter, c: seq<nat>)
    requires IsChain(anchors, f, c) && |c| >= 2
    ensures EndsAt(anchors, f, c[..|c| - 1], c[|c| - 2])
    ensures Precedes(anchors[c[|c| - 2]], anchors[c[|c| - 1]])
    ensures Weight(anchors, c) == Weight(anchors, c[..|c| - 1]) + anchors[c[|c| - 1]].length
  {
    var init := c[..|c| - 1];
    assert Linked(anchors, c, |c| - 1);
    forall k | 0 < k < |init| ensures Linked(anchors, init, k) {
      assert Linked(anchors, c, k);
    }
    assert c == init + [c[|c| - 1]];
    WeightSnoc(anchors, init, c[|c| - 1]);
  }

  /** An eligible anchor followed by a chain it precedes is a chain. */
  lemma ChainCons(anchors: seq<Anchor>, f: L1Filter, j: nat, c: seq<nat>)
    requires j < |anchors| && Eligible(anchors[j], f)
    requires IsChain(anchors, f, c)
    requires c != [] ==> Precedes(anchors[j], anchors[c[0]])
    ensures IsChain(anchors, f, [j] + c)
    ensures Weight(anchors, [j] + c) == anchors[j].length + Weight(anchors, c)
  {
    var jc := [j] + c;
    assert jc[1..] == c;
    forall k | 0 < k < |jc| ensures Linked(anchors, jc, k) {
      if k > 1 {
        assert Linked(anchors, c, k - 1);
      }
    }
  }


  /** The order in which anchors are visited: by read position. */
  ghost predicate SortedByRead(anchors: seq<Anchor>, order: seq<nat>)
  {
    (forall t :: 0 <= t < |order| ==> order[t] < |anchors|) &&
    (forall s, t :: 0 <= s < t < |order| ==> anchors[order[s]].readStart <= anchors[order[t]].readStart)
  }

  /** order lists exactly the eligible anchors. */
  ghost predicate ListsEligible(anchors: seq<Anchor>, f: L1Filter, order: seq<nat>)
  {
    (forall t :: 0 <= t < |order| ==> order[t] < |anchors| && Eligible(anchors[order[t]], f)) &&
    (forall j :: 0 <= j < |anchors| && Eligible(anchors[j], f) ==> j in order)
  }

  /** The last anchor of a chain is listed in an order that lists the eligible anchors. */
  lemma ChainEndInOrder(anchors: seq<Anchor>, f: L1Filter, order: seq<nat>, c: seq<nat>)
    requires ListsEligible(anchors, f, order) && IsChain(anchors, f, c)
    ensures c != [] ==> c[|c| - 1] in order
  {
  }

  /** Inserting x at the first position whose anchor lies further along the read keeps the order sorted. */
  lemma InsertSorted(anchors: seq<Anchor>, order: seq<nat>, x: nat, p: nat)
    requires SortedByRead(anchors, order) && x < |anchors| && p <= |order|
    requires forall t :: 0 <= t < p ==> anchors[order[t]].readStart <= anchors[x].readStart
    requires p < |order| ==> anchors[order[p]].readStart > anchors[x].readStart
    ensures SortedByRead(anchors, order[..p] + [x] + order[p..])
    ensures forall y :: y in order[..p] + [x] + order[p..] <==> y in order || y == x
  {
    var o := order[..p] + [x] + order[p..];
    assert |o| == |order| + 1;
    forall t | 0 <= t < |o|
      ensures o[t] < |anchors|
      ensures t < p ==> o[t] == order[t]
      ensures t == p ==> o[t] == x
      ensures t > p ==> o[t] == order[t - 1]
    {
      if t < p { assert o[t] == order[..p][t]; }
      else if t > p { assert o[t] == order[p..][t - p - 1]; }
    }
    forall s, t | 0 <= s < t < |o|
      ensures anchors[o[s]].readStart <= anchors[o[t]].readStart
    {
      if t == p {
        assert anchors[order[s]].readStart <= anchors[x].readStart;
      } else if s == p {
        assert anchors[order[p]].readStart <= anchors[order[t - 1]].readStart;
      } else if s < p && t > p {
        assert anchors[order[s]].readStart <= anchors[x].readStart;
      }
    }
    assert order == order[..p] + order[p..];
  }

  /** A value at two positions of a sequence occurs in it at least twice. */
  lemma TwoOccurrences(o: seq<nat>, s: nat, t: nat)
    requires s < t < |o|
    ensures o[s] == o[t] ==> multiset(o)[o[s]] >= 2
  {
    if o[s] == o[t] {
      assert o == o[..s] + [o[s]] + o[s + 1..t] + [o[t]] + o[t + 1..];
    }
  }

  /** A sequence in which no value occurs twice holds distinct values at distinct positions. */
  lemma DistinctPositions(o: seq<nat>)
    requires forall j :: multiset(o)[j] <= 1
    ensures forall s, t :: 0 <= s < t < |o| ==> o[s] != o[t]
  {
    forall s, t | 0 <= s < t < |o| ensures o[s] != o[t] {
      TwoOccurrences(o, s, t);
    }
  }

  /** Inserts anchor x after every anchor that does not lie further along the read. */
  method InsertByRead(anchors: seq<Anchor>, order: seq<nat>, x: nat) returns (o: seq<nat>)
    requires SortedByRead(anchors, order) && x < |anchors|
    ensures SortedByRead(anchors, o)
    ensures forall y :: y in o <==> y in order || y == x
    ensures multiset(o) == multiset(order) + multiset{x}
  {
    var key := anchors[x].readStart;
    var p := 0;
    while p < |order| && anchors[order[p]].readStart <= key
      invariant 0 <= p <= |order|
      invariant forall t :: 0 <= t < p ==> anchors[order[t]].readStart <= key
    {
      p := p + 1;
    }
    InsertSorted(anchors, order, x, p);
    o := order[..p] + [x] + order[p..];
    assert order == order[..p] + order[p..];
  }

  /** The eligible anchors, sorted by read position (insertion sort on a sequence of indices). */
  method SortEligibleByRead(anchors: seq<Anchor>, f: L1Filter) returns (order: seq<nat>)
    ensures ListsEligible(anchors, f, order)
    ensures SortedByRead(anchors, order)
    ensures forall s, t :: 0 <= s < t < |order| ==> order[s] != order[t]
  {
    order := [];
    var i := 0;
    while i < |anchors|
      invariant 0 <= i <= |anchors|
      invariant forall t :: 0 <= t < |order| ==> order[t] < i && Eligible(anchors[order[t]], f)
      invariant forall j :: 0 <= j < i && Eligible(anchors[j], f) ==> j in order
      invariant SortedByRead(anchors, order)
      invariant forall j :: multiset(order)[j] <= 1
    {
      if Eligible(anchors[i], f) {
        ghost var before := order;
        assert i !in before;
        order := InsertByRead(anchors, order, i);
        assert forall t :: 0 <= t < |order| ==> order[t] in before || order[t] == i;
      }
      i := i + 1;
    }
    DistinctPositions(order);
  }

  /**
   * The values and back-pointers of the first t visited anchors: each value
   * is the anchor's length, plus the value of the earlier anchor its
   * back-pointer names (-1 for none), which precedes it.
   */
  ghost predicate BackPointers(anchors: seq<Anchor>, order: seq<nat>, best: seq<int>, prev: seq<int>, t: nat)
  {
    t <= |order| && t <= |best| && t <= |prev| &&
    (forall s :: 0 <= s < |order| ==> order[s] < |anchors|) &&
    (forall s :: 0 <= s < t ==>
       -1 <= prev[s] < s && best[s] >= anchors[order[s]].length &&
       (prev[s] == -1 ==> best[s] == anchors[order[s]].length) &&
       (prev[s] >= 0 ==> Precedes(anchors[order[prev[s]]], anchors[order[s]]) &&
                         best[s] == anchors[order[s]].length + best[prev[s]]))
  }

  /** No chain ending at anchor order[s] weighs more than v. */
  ghost predicate BoundAt(anchors: seq<Anchor>, f: L1Filter, order: seq<nat>, s: nat, v: int)
  {
    s < |order| && forall c :: EndsAt(anchors, f, c, order[s]) ==> Weight(anchors, c) <= v
  }

  /** No chain ending at one of the first t visited anchors weighs more than that anchor's value. */
  ghost predicate ValuesBound(anchors: seq<Anchor>, f: L1Filter, order: seq<nat>, best: seq<int>, t: nat)
  {
    t <= |order| && t <= |best| &&
    forall s :: 0 <= s < t ==> BoundAt(anchors, f, order, s, best[s])
  }

  /**
   * Scans the anchors visited before position t and picks the one with the
   * best value among those that precede anchor j (-1 and value 0 when none does).
   */
  method BestPredecessor(anchors: seq<Anchor>, order: seq<nat>, best: seq<int>, t: nat, j: nat)
    returns (bp: int, bv: int)
    requires t <= |order| && t <= |best| && j < |anchors|
    requires forall s :: 0 <= s < |order| ==> order[s] < |anchors|
    ensures -1 <= bp < t as int
    ensures bp == -1 ==> bv == 0 && forall s :: 0 <= s < t ==> !Precedes(anchors[order[s]], anchors[j])
    ensures bp >= 0 ==> Precedes(anchors[order[bp]], anchors[j]) && bv == best[bp]
    ensures forall s :: 0 <= s < t && Precedes(anchors[order[s]], anchors[j]) ==> best[s] <= bv
  {
    bp, bv := -1, 0;
    var s := 0;
    while s < t
      invariant 0 <= s <= t
      invariant -1 <= bp < s
      invariant bp == -1 ==> bv == 0 && forall u :: 0 <= u < s ==> !Precedes(anchors[order[u]], anchors[j])
      invariant bp >= 0 ==> Precedes(anchors[order[bp]], anchors[j]) && bv == best[bp]
      invariant forall u :: 0 <= u < s && Precedes(anchors[order[u]], anchors[j]) ==> best[u] <= bv
    {
      if Precedes(anchors[order[s]], anchors[j]) && (bp == -1 || best[s] > bv) {
        bp, bv := s, best[s];
      }
      s := s + 1;
    }
  }

  /**
   * One step of the optimality argument: if every chain ending at an anchor
   * visited before position t weighs at most that anchor's value, and bv
   * bounds the values of the visited anchors that precede anchor order[t],
   * then every chain ending at order[t] weighs at most its length plus bv.
   */
  lemma ChainBoundStep(anchors: seq<Anchor>, f: L1Filter, order: seq<nat>, best: seq<int>, t: nat, bv: int)
    requires ListsEligible(anchors, f, order) && SortedByRead(anchors, order)
    requires t < |order| && ValuesBound(anchors, f, order, best, t) && bv >= 0
    requires forall s :: 0 <= s < t && Precedes(anchors[order[s]], anchors[order[t]]) ==> best[s] <= bv
    ensures BoundAt(anchors, f, order, t, anchors[order[t]].length + bv)
  {
    forall c | EndsAt(anchors, f, c, order[t])
      ensures Weight(anchors, c) <= anchors[order[t]].length + bv
    {
      if |c| == 1 {
        assert c[1..] == [];
      } else {
        ChainInit(anchors, f, c);
        var i := c[|c| - 2];
        assert i in order;
        var s :| 0 <= s < |order| && order[s] == i;
        assert s < t;
        assert BoundAt(anchors, f, order, s, best[s]);
        assert EndsAt(anchors, f, c[..|c| - 1], order[s]);
      }
    }
  }

  /**
   * best' and prev' are best and prev with the value and back-pointer of the
   * anchor visited at position t recorded: its length plus the best value of
   * a visited anchor that precedes it, and that anchor's position (its length
   * alone and -1 when none precedes it).
   */
  ghost predicate Recorded(anchors: seq<Anchor>, order: seq<nat>, best: seq<int>, prev: seq<int>,
                           best': seq<int>, prev': seq<int>, t: nat)
  {
    t < |order| && t < |best| == |best'| && t < |prev| == |prev'| &&
    (forall s :: 0 <= s < |order| ==> order[s] < |anchors|) &&
    best' == best[t := best'[t]] && prev' == prev[t := prev'[t]] &&
    -1 <= prev'[t] < t &&
    (prev'[t] == -1 ==> best'[t] == anchors[order[t]].length &&
                        forall s :: 0 <= s < t ==> !Precedes(anchors[order[s]], anchors[order[t]])) &&
    (prev'[t] >= 0 ==> Precedes(anchors[order[prev'[t]]], anchors[order[t]]) &&
                       best'[t] == anchors[order[t]].length + best[prev'[t]]) &&
    (forall s :: 0 <= s < t && Precedes(anchors[order[s]], anchors[order[t]]) ==>
       anchors[order[t]].length + best[s] <= best'[t])
  }

  /** Recording position t extends the back-pointer facts to t + 1. */
  lemma BackPointersExtend(anchors: seq<Anchor>, order: seq<nat>, best: seq<int>, prev: seq<int>,
                           best': seq<int>, prev': seq<int>, t: nat)
    requires BackPointers(anchors, order, best, prev, t)
    requires Recorded(anchors, order, best, prev, best', prev', t)
    ensures BackPointers(anchors, order, best', prev', t + 1)
  {
  }

  /** Recording position t extends the value bounds to t + 1. */
  lemma ValuesBoundExtend(anchors: seq<Anchor>, f: L1Filter, order: seq<nat>, best: seq<int>, prev: seq<int>,
                          best': seq<int>, prev': seq<int>, t: nat)
    requires ListsEligible(anchors, f, order) && SortedByRead(anchors, order)
    requires BackPointers(anchors, order, best, prev, t) && ValuesBound(anchors, f, order, best, t)
    requires Recorded(anchors, order, best, prev, best', prev', t)
    ensures ValuesBound(anchors, f, order, best', t + 1)
  {
    ChainBoundStep(anchors, f, order, best, t, best'[t] - anchors[order[t]].length);
    forall s | 0 <= s < t + 1 ensures BoundAt(anchors, f, order, s, best'[s]) {
      if s < t {
        assert best'[s] == best[s];
      }
    }
  }

  /** Records the value and back-pointer of the anchor visited at position t. */
  method RecordValue(anchors: seq<Anchor>, order: seq<nat>, best: array<int>, prev: array<int>, t: nat)
    requires forall s :: 0 <= s < |order| ==> order[s] < |anchors|
    requires best != prev && best.Length == prev.Length == |order| && t < |order|
    modifies best, prev
    ensures Recorded(anchors, order, old(best[..]), old(prev[..]), best[..], prev[..], t)
  {
    var j := order[t];
    var bp, bv := BestPredecessor(anchors, order, best[..], t, j);
    best[t] := anchors[j].length + bv;
    prev[t] := bp;
  }

  /** Values and back-pointers of all visited anchors, in visiting order. */
  method ChainValues(anchors: seq<Anchor>, f: L1Filter, order: seq<nat>) returns (best: array<int>, prev: array<int>)
    requires ListsEligible(anchors, f, order) && SortedByRead(anchors, order)
    ensures fresh(best) && fresh(prev) && best.Length == prev.Length == |order|
    ensures BackPointers(anchors, order, best[..], prev[..], |order|)
    ensures ValuesBound(anchors, f, order, best[..], |order|)
  {
    best := new int[|order|];
    prev := new int[|order|];
    var t := 0;
    while t < |order|
      invariant 0 <= t <= |order|
      invariant BackPointers(anchors, order, best[..], prev[..], t)
      invariant ValuesBound(anchors, f, order, best[..], t)
    {
      ghost var bs, ps := best[..], prev[..];
      RecordValue(anchors, order, best, prev, t);
      BackPointersExtend(anchors, order, bs, ps, best[..], prev[..], t);
      ValuesBoundExtend(anchors, f, order, bs, ps, best[..], prev[..], t);
      t := t + 1;
    }
  }

  /** Follows the back-pointers from position tEnd and returns the chain they spell, in order. */
  method ReadBackChain(anchors: seq<Anchor>, f: L1Filter, order: seq<nat>, best: seq<int>, prev: seq<int>, tEnd: nat)
    returns (chain: seq<nat>)
    requires ListsEligible(anchors, f, order) && tEnd < |order|
    requires BackPointers(anchors, order, best, prev, |order|)
    ensures chain != [] && IsChain(anchors, f, chain) && Weight(anchors, chain) == best[tEnd]
    ensures EndsAt(anchors, f, chain, order[tEnd])
  {
    var cur: int := tEnd;
    chain := [];
    while cur >= 0
      invariant -1 <= cur < |order|
      invariant IsChain(anchors, f, chain)
      invariant chain != [] ==> chain[|chain| - 1] == order[tEnd]
      invariant cur != tEnd ==> chain != []
      invariant cur >= 0 ==> (chain != [] ==> Precedes(anchors[order[cur]], anchors[chain[0]])) &&
                             best[cur] + Weight(anchors, chain) == best[tEnd]
      invariant cur == -1 ==> chain != [] && Weight(anchors, chain) == best[tEnd]
      decreases cur + 1
    {
      var j := order[cur];
      ChainCons(anchors, f, j, chain);
      chain := [j] + chain;
      cur := prev[cur];
    }
  }

  /**
   * Position of the highest value among the visited anchors; on a tie, the
   * anchor furthest along the reference, then the longest anchor, and among
   * those the first visited.
   */
  method HighestValue(anchors: seq<Anchor>, order: seq<nat>, best: array<int>) returns (tEnd: nat)
    requires 0 < |order| == best.Length
    requires forall s :: 0 <= s < |order| ==> order[s] < |anchors|
    ensures tEnd < |order|
    ensures forall s :: 0 <= s < |order| ==> best[s] <= best[tEnd]
    ensures forall s :: 0 <= s < |order| && best[s] == best[tEnd] ==>
              anchors[order[s]].refStart <= anchors[order[tEnd]].refStart
    ensures forall s :: 0 <= s < |order| && best[s] == best[tEnd] &&
                        anchors[order[s]].refStart == anchors[order[tEnd]].refStart ==>
              anchors[order[s]].length <= anchors[order[tEnd]].length
    ensures forall s :: 0 <= s < tEnd ==>
              best[s] < best[tEnd] || anchors[order[s]].refStart < anchors[order[tEnd]].refStart ||
              anchors[order[s]].length < anchors[order[tEnd]].length
  {
    tEnd := 0;
    var u := 1;
    while u < |order|
      invariant 1 <= u <= |order| && tEnd < u
      invariant forall s :: 0 <= s < u ==> best[s] <= best[tEnd]
      invariant forall s :: 0 <= s < u && best[s] == best[tEnd] ==>
                  anchors[order[s]].refStart <= anchors[order[tEnd]].refStart
      invariant forall s :: 0 <= s < u && best[s] == best[tEnd] &&
                            anchors[order[s]].refStart == anchors[order[tEnd]].refStart ==>
                  anchors[order[s]].length <= anchors[order[tEnd]].length
      invariant forall s :: 0 <= s < tEnd ==>
                  best[s] < best[tEnd] || anchors[order[s]].refStart < anchors[order[tEnd]].refStart ||
                  anchors[order[s]].length < anchors[order[tEnd]].length
    {
      var a, b := anchors[order[u]], anchors[order[tEnd]];
      if best[u] > best[tEnd] ||
         (best[u] == best[tEnd] && a.refStart > b.refStart) ||
         (best[u] == best[tEnd] && a.refStart == b.refStart && a.length > b.length) {
        tEnd := u;
      }
      u := u + 1;
    }
  }

  /** A value at least every visited value bounds the weight of every chain. */
  lemma ChainsBoundedByMaximum(anchors: seq<Anchor>, f: L1Filter, order: seq<nat>, best: seq<int>, tEnd: nat)
    requires ListsEligible(anchors, f, order)
    requires |best| == |order| && tEnd < |order| && best[tEnd] >= 0
    requires ValuesBound(anchors, f, order, best, |order|)
    requires forall s :: 0 <= s < |order| ==> best[s] <= best[tEnd]
    ensures forall c :: IsChain(anchors, f, c) ==> Weight(anchors, c) <= best[tEnd]
  {
    forall c | IsChain(anchors, f, c) ensures Weight(anchors, c) <= best[tEnd] {
      if c != [] {
        var j := c[|c| - 1];
        ChainEndInOrder(anchors, f, order, c);
        var s :| 0 <= s < |order| && order[s] == j;
        assert BoundAt(anchors, f, order, s, best[s]);
        assert EndsAt(anchors, f, c, order[s]);
        assert best[s] <= best[tEnd];
      }
    }
  }

  /**
   * Every heaviest chain ends no further along the reference than the anchor
   * of highest value chosen by the tie-break, and, ending at the same
   * reference position, with an anchor no longer than it.
   */
  lemma HeaviestChainsTieBreak(anchors: seq<Anchor>, f: L1Filter, order: seq<nat>, best: seq<int>, tEnd: nat)
    requires ListsEligible(anchors, f, order)
    requires |best| == |order| && tEnd < |order|
    requires ValuesBound(anchors, f, order, best, |order|)
    requires forall s :: 0 <= s < |order| ==> best[s] <= best[tEnd]
    requires forall s :: 0 <= s < |order| && best[s] == best[tEnd] ==>
               anchors[order[s]].refStart <= anchors[order[tEnd]].refStart
    requires forall s :: 0 <= s < |order| && best[s] == best[tEnd] &&
                         anchors[order[s]].refStart == anchors[order[tEnd]].refStart ==>
               anchors[order[s]].length <= anchors[order[tEnd]].length
    ensures forall c :: IsChain(anchors, f, c) && c != [] && Weight(anchors, c) == best[tEnd] ==>
              anchors[c[|c| - 1]].refStart <= anchors[order[tEnd]].refStart &&
              (anchors[c[|c| - 1]].refStart == anchors[order[tEnd]].refStart ==>
                 anchors[c[|c| - 1]].length <= anchors[order[tEnd]].length)
  {
    forall c | IsChain(anchors, f, c) && c != [] && Weight(anchors, c) == best[tEnd]
      ensures anchors[c[|c| - 1]].refStart <= anchors[order[tEnd]].refStart &&
              (anchors[c[|c| - 1]].refStart == anchors[order[tEnd]].refStart ==>
                 anchors[c[|c| - 1]].length <= anchors[order[tEnd]].length)
    {
      ChainEndInOrder(anchors, f, order, c);
      var s :| 0 <= s < |order| && order[s] == c[|c| - 1];
      assert BoundAt(anchors, f, order, s, best[s]);
      assert EndsAt(anchors, f, c, order[s]);
      assert best[s] == best[tEnd];
    }
  }

  /**
   * Computes the LCSk chain of the anchors: the heaviest chain of anchors
   * that pass the L1 filter (when useL1Filtering is set, those whose diagonal
   * lies within allowedDist of l) and that follow one another without overlap
   * on both the read and the reference. Anchors are visited by read position;
   * each one's value is its length plus the best value among the visited
   * anchors preceding it, with a back-pointer to that anchor; the chain is
   * read back from the anchor of highest value (on a tie, the one furthest
   * along the reference, then the longest).
   */
  method CalcLCSFromLocalScores(anchors: seq<Anchor>, useL1Filtering: bool, l: int, allowedDist: int)
    returns (retLcskppLength: int, retLcskppIndices: seq<nat>)
    ensures IsChain(anchors, L1Filter(useL1Filtering, l, allowedDist), retLcskppIndices)
    ensures retLcskppLength == Weight(anchors, retLcskppIndices)
    ensures forall c :: IsChain(anchors, L1Filter(useL1Filtering, l, allowedDist), c) ==> Weight(anchors, c) <= retLcskppLength
    ensures retLcskppLength >= 0
    ensures retLcskppLength == 0 <==> retLcskppIndices == []
    ensures retLcskppIndices == [] <==>
              forall j :: 0 <= j < |anchors| ==> !Eligible(anchors[j], L1Filter(useL1Filtering, l, allowedDist))
    ensures forall c :: IsChain(anchors, L1Filter(useL1Filtering, l, allowedDist), c) && c != [] &&
                        Weight(anchors, c) == retLcskppLength ==>
              retLcskppIndices != [] &&
              anchors[c[|c| - 1]].refStart <= anchors[retLcskppIndices[|retLcskppIndices| - 1]].refStart &&
              (anchors[c[|c| - 1]].refStart == anchors[retLcskppIndices[|retLcskppIndices| - 1]].refStart ==>
                 anchors[c[|c| - 1]].length <= anchors[retLcskppIndices[|retLcskppIndices| - 1]].length)
  {
    var f := L1Filter(useL1Filtering, l, allowedDist);
    var order := SortEligibleByRead(anchors, f);
    var m := |order|;
    if m == 0 {
      forall c | IsChain(anchors, f, c) ensures c == [] {
        ChainEndInOrder(anchors, f, order, c);
      }
      return 0, [];
    }
    var best, prev := ChainValues(anchors, f, order);
    var tEnd := HighestValue(anchors, order, best);
    retLcskppLength := best[tEnd];
    retLcskppIndices := ReadBackChain(anchors, f, order, best[..], prev[..], tEnd);
    ChainsBoundedByMaximum(anchors, f, order, best[..], tEnd);
    HeaviestChainsTieBreak(anchors, f, order, best[..], tEnd);
  }
}
