// The readopt-ds benchmark driver: the table of algorithms, the filter that
// keeps those whose description matches, the main loop that feeds every
// molecule of a SMILES file to every kept algorithm, and the report that
// prints each batch and resets the timers.

module Benchmarks {
  import opened Wrappers
  import opened GraphRefs
  import opened BenchmarkKernels

  /** `Long.MAX_VALUE`, where the search for the fastest algorithm starts. */
  const LongMax: int := 0x7FFF_FFFF_FFFF_FFFF

  /** The fourteen kinds, in the order of the `algs` table. */
  const AllKinds: seq<Kind> := [
    DepthFirstContainer, DepthFirstAdjFlag, DepthFirstAdjMapFlag, DepthFirstAdjMapArray,
    DepthFirstAdjArray, DepthFirstRefFlag, DepthFirstRefArray,
    RelaxContainer, RelaxImproved, RelaxAdj, RelaxRef, RelaxXor, RelaxBonds, RelaxAdjMap]

  /** The description each algorithm is built with: data structure, algorithm and tweak, tab-separated. */
  function Description(kind: Kind): string
  {
    match kind
    case DepthFirstContainer => "AtomContainer\tDepthFirst\t"
    case DepthFirstAdjFlag => "GraphUtil\tDepthFirst\tVisitFlag"
    case DepthFirstAdjMapFlag => "GraphUtil+BondMap\tDepthFirst\tVisitFlag"
    case DepthFirstAdjMapArray => "GraphUtil+BondMap\tDepthFirst\tVisitArray"
    case DepthFirstAdjArray => "GraphUtil\tDepthFirst\tVisitArray"
    case DepthFirstRefFlag => "AtomRef\tDepthFirst\tVisitFlag"
    case DepthFirstRefArray => "AtomRef\tDepthFirst\tVisitArray"
    case RelaxContainer => "AtomContainer\tRelaxation\t"
    case RelaxImproved => "AtomContainer\tRelaxation\tImproved"
    case RelaxAdj => "GraphUtil\tRelaxation\t"
    case RelaxRef => "AtomRef\tRelaxation\t"
    case RelaxXor => "AtomRef\tRelaxation\tXor"
    case RelaxBonds => "BondRef\tRelaxation\t"
    case RelaxAdjMap => "GraphUtil+BondMap\tRelaxation\t"
  }

  /** Every kind is in the table once, and every description is non-empty. */
  lemma TableComplete()
    ensures forall k: Kind :: k in AllKinds
    ensures forall i, j :: 0 <= i < j < |AllKinds| ==> AllKinds[i] != AllKinds[j]
    ensures forall k: Kind :: |Description(k)| > 0
  {
    forall k: Kind ensures k in AllKinds {
      match k
      case DepthFirstContainer => assert AllKinds[0] == k;
      case DepthFirstAdjFlag => assert AllKinds[1] == k;
      case DepthFirstAdjMapFlag => assert AllKinds[2] == k;
      case DepthFirstAdjMapArray => assert AllKinds[3] == k;
      case DepthFirstAdjArray => assert AllKinds[4] == k;
      case DepthFirstRefFlag => assert AllKinds[5] == k;
      case DepthFirstRefArray => assert AllKinds[6] == k;
      case RelaxContainer => assert AllKinds[7] == k;
      case RelaxImproved => assert AllKinds[8] == k;
      case RelaxAdj => assert AllKinds[9] == k;
      case RelaxRef => assert AllKinds[10] == k;
      case RelaxXor => assert AllKinds[11] == k;
      case RelaxBonds => assert AllKinds[12] == k;
      case RelaxAdjMap => assert AllKinds[13] == k;
    }
  }

  /** No algorithm appears twice. */
  predicate Distinct(algs: seq<MeasureAlgorithm>)
  {
    forall i, j :: 0 <= i < j < |algs| ==> algs[i] != algs[j]
  }

  /** a is as `new MeasureAlgorithm(desc, kind)` leaves it for the kind. */
  predicate Initial(a: MeasureAlgorithm, kind: Kind)
    reads a
  {
    a.kind == kind && a.desc == Description(kind) && a.tInit == 0 && a.tRun == 0 && a.check == 0
  }

  /** The static `algs` table, built with kinds == AllKinds: one fresh algorithm per kind, in order. */
  method NewAlgorithms(kinds: seq<Kind>) returns (algs: array<MeasureAlgorithm>)
    ensures fresh(algs) && algs.Length == |kinds| && Distinct(algs[..])
    ensures forall j :: 0 <= j < algs.Length ==> fresh(algs[j]) && Initial(algs[j], kinds[j])
  {
    var table: seq<MeasureAlgorithm> := [];
    for i := 0 to |kinds|
      invariant |table| == i && Distinct(table)
      invariant forall j :: 0 <= j < i ==> fresh(table[j]) && Initial(table[j], kinds[j])
    {
      var a := new MeasureAlgorithm(Description(kinds[i]), kinds[i]);
      table := table + [a];
    }
    algs := new MeasureAlgorithm[|table|](j requires 0 <= j < |table| => table[j]);
  }

  // ------------------------------------------------------------ filter

  /** The algorithms whose description the filter pattern finds a match in, in order. */
  function Filter(s: seq<MeasureAlgorithm>, matches: string -> bool): seq<MeasureAlgorithm>
  {
    if s == [] then [] else
      Filter(s[..|s| - 1], matches) + (if matches(s[|s| - 1].desc) then [s[|s| - 1]] else [])
  }

  /** The filter keeps exactly the algorithms that match. */
  lemma {:induction false} FilterKeeps(s: seq<MeasureAlgorithm>, matches: string -> bool, a: MeasureAlgorithm)
    ensures a in Filter(s, matches) <==> a in s && matches(a.desc)
  {
    if s != [] {
      FilterKeeps(s[..|s| - 1], matches, a);
      assert s == s[..|s| - 1] + [s[|s| - 1]];
    }
  }

  /** The filter selects from the table: its result is no longer than the table, and a table without repeats gives a selection without repeats. */
  lemma {:induction false} FilterOrdered(s: seq<MeasureAlgorithm>, matches: string -> bool)
    ensures |Filter(s, matches)| <= |s|
    ensures Distinct(s) ==> Distinct(Filter(s, matches))
  {
    if s != [] {
      var p := s[..|s| - 1];
      FilterOrdered(p, matches);
      if Distinct(s) && matches(s[|s| - 1].desc) {
        assert Distinct(p);
        FilterKeeps(p, matches, s[|s| - 1]);
        assert forall i :: 0 <= i < |p| ==> p[i] == s[i] != s[|s| - 1];
      }
    }
  }

  /** A pattern every description matches, such as the default `.+`, keeps the whole table. */
  lemma {:induction false} FilterAll(s: seq<MeasureAlgorithm>, matches: string -> bool)
    requires forall i :: 0 <= i < |s| ==> matches(s[i].desc)
    ensures Filter(s, matches) == s
  {
    if s != [] {
      FilterAll(s[..|s| - 1], matches);
    }
  }

  /** The default filter `.+` matches each of the table's descriptions, none of which is empty, so the whole table runs. */
  lemma DefaultKeepsAll(algs: seq<MeasureAlgorithm>)
    requires |algs| == |AllKinds| && forall j :: 0 <= j < |algs| ==> algs[j].desc == Description(AllKinds[j])
    ensures Filter(algs, d => |d| > 0) == algs
  {
    TableComplete();
    FilterAll(algs, d => |d| > 0);
  }

  /** The filter's compaction in place: each matching algorithm moves down to the next free slot, in order. */
  method Compact(algs: array<MeasureAlgorithm>, matches: string -> bool) returns (num: nat)
    modifies algs
    ensures num <= algs.Length && algs[..num] == Filter(old(algs[..]), matches)
  {
    ghost var s := algs[..];
    num := 0;
    var pos := 0;
    while pos < algs.Length
      invariant 0 <= num <= pos <= algs.Length
      invariant algs[..num] == Filter(s[..pos], matches) && algs[pos..] == s[pos..]
    {
      assert s[..pos + 1][..pos] == s[..pos] && algs[pos] == s[pos];
      ghost var kept := Filter(s[..pos + 1], matches);
      if matches(algs[pos].desc) {
        assert kept == algs[..num] + [s[pos]];
        algs[num] := algs[pos];
        num := num + 1;
        assert algs[..num] == kept;
      } else {
        assert kept == algs[..num];
      }
      pos := pos + 1;
      assert algs[pos..] == s[pos..];
    }
    assert s[..algs.Length] == s;
  }

  /** Compaction followed by `algs = Arrays.copyOf(algs, num)`. */
  method Select(algs: array<MeasureAlgorithm>, matches: string -> bool) returns (kept: array<MeasureAlgorithm>)
    modifies algs
    ensures fresh(kept) && kept[..] == Filter(old(algs[..]), matches)
  {
    var num := Compact(algs, matches);
    kept := new MeasureAlgorithm[num](i requires 0 <= i < num reads algs => algs[i]);
    assert kept[..] == algs[..num];
  }

  // ------------------------------------------------------------ report

  /** One printed line of a report, before the ratios to the fastest are formatted. */
  datatype Row = Row(desc: string, tElap: int, tInit: int, tRun: int, check: int)

  /** A report: the line range `first-last` it names, the fastest times and one row per algorithm. */
  datatype Batch = Batch(first: int, last: int, bestElap: int, bestRun: int, rows: seq<Row>)

  /** best is `Long.MAX_VALUE` lowered to the least of the first n of xs, as a scan with `<` finds it. */
  predicate LeastOf(best: int, xs: seq<int>, n: nat)
    requires n <= |xs|
  {
    best <= LongMax && (forall i :: 0 <= i < n ==> best <= xs[i]) &&
    (best == LongMax || exists i :: 0 <= i < n && best == xs[i])
  }

  /** best is `Long.MAX_VALUE` lowered to the least of xs. */
  predicate Least(best: int, xs: seq<int>)
  {
    LeastOf(best, xs, |xs|)
  }

  /** `if (x < best) best = x;` keeps best the least so far. */
  lemma LeastStep(best: int, xs: seq<int>, n: nat)
    requires n < |xs| && LeastOf(best, xs, n)
    ensures LeastOf(if xs[n] < best then xs[n] else best, xs, n + 1)
  {
  }

  function Runs(rows: seq<Row>): (xs: seq<int>)
    ensures |xs| == |rows| && forall i :: 0 <= i < |rows| ==> xs[i] == rows[i].tRun
  {
    seq(|rows|, i requires 0 <= i < |rows| => rows[i].tRun)
  }

  function Elapsed(rows: seq<Row>): (xs: seq<int>)
    ensures |xs| == |rows| && forall i :: 0 <= i < |rows| ==> xs[i] == rows[i].tElap
  {
    seq(|rows|, i requires 0 <= i < |rows| => rows[i].tElap)
  }

  function RowsOf(algs: seq<MeasureAlgorithm>): (rows: seq<Row>)
    reads set j | 0 <= j < |algs| :: algs[j]
    ensures |rows| == |algs| && forall j :: 0 <= j < |algs| ==> rows[j] == RowOf(algs[j])
  {
    if algs == [] then [] else RowsOf(algs[..|algs| - 1]) + [RowOf(algs[|algs| - 1])]
  }

  /** The row alg prints. */
  function RowOf(alg: MeasureAlgorithm): Row
    reads alg
  {
    Row(alg.desc, alg.tInit + alg.tRun, alg.tInit, alg.tRun, alg.check)
  }

  /** The first loop of `report`: the least total and the least run time, each starting from `Long.MAX_VALUE`. */
  method Fastest(algs: array<MeasureAlgorithm>) returns (bestElap: int, bestRun: int)
    ensures Least(bestRun, Runs(RowsOf(algs[..]))) && Least(bestElap, Elapsed(RowsOf(algs[..])))
  {
    ghost var runs, elapsed := Runs(RowsOf(algs[..])), Elapsed(RowsOf(algs[..]));
    bestElap, bestRun := LongMax, LongMax;
    for j := 0 to algs.Length
      invariant LeastOf(bestRun, runs, j) && LeastOf(bestElap, elapsed, j)
    {
      var alg := algs[j];
      LeastStep(bestRun, runs, j);
      LeastStep(bestElap, elapsed, j);
      if alg.tRun < bestRun {
        bestRun := alg.tRun;
      }
      if alg.tInit + alg.tRun < bestElap {
        bestElap := alg.tInit + alg.tRun;
      }
    }
  }

  /** The second loop of `report`: print every algorithm's row, then set `alg.tInit = 0; alg.tRun = 0`. */
  method PrintAndReset(algs: array<MeasureAlgorithm>) returns (rows: seq<Row>)
    requires Distinct(algs[..])
    modifies set j | 0 <= j < algs.Length :: algs[j]
    ensures rows == old(RowsOf(algs[..]))
    ensures forall j :: 0 <= j < algs.Length ==>
      algs[j].tInit == 0 && algs[j].tRun == 0 && algs[j].check == old(algs[j].check)
  {
    ghost var before := RowsOf(algs[..]);
    rows := [];
    for j := 0 to algs.Length
      invariant rows == before[..j]
      invariant forall i :: 0 <= i < j ==> algs[i].tInit == 0 && algs[i].tRun == 0 && algs[i].check == old(algs[i].check)
      invariant forall i :: j <= i < algs.Length ==> RowOf(algs[i]) == before[i]
    {
      assert forall i :: j < i < algs.Length ==> algs[i] != algs[j] by {
        assert forall i :: 0 <= i < algs.Length ==> algs[..][i] == algs[i];
      }
      rows := rows + [RowOf(algs[j])];
      algs[j].tInit := 0;
      algs[j].tRun := 0;
    }
    assert before[..algs.Length] == before;
  }

  /**
   * `report(file, count, linenum)`: find the fastest total and run times,
   * print a row per algorithm for the lines `linenum - count` to `linenum`,
   * and reset every algorithm's timers; the checksums run on.
   */
  method Report(algs: array<MeasureAlgorithm>, count: int, linenum: int) returns (b: Batch)
    requires Distinct(algs[..])
    modifies set j | 0 <= j < algs.Length :: algs[j]
    ensures b.first == linenum - count && b.last == linenum && b.rows == old(RowsOf(algs[..]))
    ensures Least(b.bestRun, Runs(b.rows)) && Least(b.bestElap, Elapsed(b.rows))
    ensures forall j :: 0 <= j < algs.Length ==>
      algs[j].tInit == 0 && algs[j].tRun == 0 && algs[j].check == old(algs[j].check)
  {
    var bestElap, bestRun := Fastest(algs);
    var rows := PrintAndReset(algs);
    b := Batch(linenum - count, linenum, bestElap, bestRun, rows);
  }

  // ------------------------------------------------------------ main loop

  /** Where a report falls: the lines `first-last` it names, and how many lines had been measured when it was taken. */
  datatype Mark = Mark(first: int, last: int, seen: nat)

  /** The loop's `count` after some lines, and the reports taken inside the loop so far. */
  datatype Counters = Counters(count: int, marks: seq<Mark>)

  /**
   * The counters after n lines. A report is taken when `count` reaches
   * `step`; as the loop is written it comes before line n is processed,
   * so n - 1 lines have been measured; with processing first (fixed) all
   * n have.
   */
  function Batches(n: nat, step: int, fixed: bool): (r: Counters)
    ensures 0 <= r.count <= n
    ensures forall k :: 0 <= k < |r.marks| ==> r.marks[k].seen <= n
  {
    if n == 0 then Counters(0, []) else Tick(Batches(n - 1, step, fixed), n - 1, step, fixed)
  }

  /** Line n is read: the count grows, or a report is taken and the count starts again. */
  function Tick(r: Counters, n: nat, step: int, fixed: bool): Counters
  {
    if r.count + 1 == step then Counters(0, r.marks + [Mark(n + 1 - step, n + 1, if fixed then n + 1 else n)])
    else Counters(r.count + 1, r.marks)
  }

  /** Every report of a run over n lines, the final `report(file, count, linenum)` included. */
  function Schedule(n: nat, step: int, fixed: bool): (ms: seq<Mark>)
    ensures |ms| > 0 && forall k :: 0 <= k < |ms| ==> ms[k].seen <= n
  {
    var r := Batches(n, step, fixed);
    r.marks + [Mark(n - r.count, n, n)]
  }

  /** The reports name consecutive ranges that start at line 0 and end at line n, each at most step long. */
  lemma {:induction false} BatchesContiguous(n: nat, step: int, fixed: bool)
    ensures var c, ms := Batches(n, step, fixed).count, Batches(n, step, fixed).marks;
      (ms == [] ==> c == n) &&
      (ms != [] ==> ms[0].first == 0 && ms[|ms| - 1].last == n - c) &&
      (forall k :: 0 < k < |ms| ==> ms[k].first == ms[k - 1].last) &&
      (forall k :: 0 <= k < |ms| ==> ms[k].last - ms[k].first == step) &&
      (step > 0 ==> c < step)
  {
    if n > 0 {
      BatchesContiguous(n - 1, step, fixed);
    }
  }

  /** In the fixed loop every report has measured exactly the lines up to the last one it names. */
  lemma {:induction false} FixedSeesItsLines(n: nat, step: int)
    ensures forall k :: 0 <= k < |Schedule(n, step, true)| ==> Schedule(n, step, true)[k].seen == Schedule(n, step, true)[k].last
  {
    BatchesSeen(n, step, true);
    var r := Batches(n, step, true);
    assert Schedule(n, step, true) == r.marks + [Mark(n - r.count, n, n)];
  }

  /** As written, every report inside the loop has measured one line fewer than it names. */
  lemma {:induction false} AsWrittenMissesALine(n: nat, step: int)
    ensures var ms := Schedule(n, step, false);
      forall k :: 0 <= k < |ms| - 1 ==> ms[k].seen == ms[k].last - 1
  {
    BatchesSeen(n, step, false);
    var r := Batches(n, step, false);
    assert Schedule(n, step, false) == r.marks + [Mark(n - r.count, n, n)];
  }

  /** Each mark has measured the lines it names (fixed), or one fewer (as written). */
  predicate SeenUpTo(ms: seq<Mark>, fixed: bool)
  {
    forall k :: 0 <= k < |ms| ==> ms[k].seen == (if fixed then ms[k].last else ms[k].last - 1)
  }

  lemma {:induction false} BatchesSeen(n: nat, step: int, fixed: bool)
    ensures SeenUpTo(Batches(n, step, fixed).marks, fixed)
  {
    if n > 0 {
      BatchesSeen(n - 1, step, fixed);
    }
  }

  /** One line with step 1: as written the report for line 1 is taken before it is measured, and the final report names no line but holds it. */
  lemma StepOneExample()
    ensures Schedule(1, 1, false) == [Mark(0, 1, 0), Mark(1, 1, 1)]
    ensures Schedule(1, 1, true) == [Mark(0, 1, 1), Mark(1, 1, 1)]
  {
  }

  /** How much the checksum of an algorithm of the kind grows over the first k lines (a line that did not parse adds nothing). */
  function CheckAfter(kind: Kind, lines: seq<Option<Mol>>, k: nat): int
    requires k <= |lines|
  {
    if k == 0 then 0 else
      CheckAfter(kind, lines, k - 1) + (if lines[k - 1].Some? then Expected(kind, lines[k - 1].value) else 0)
  }

  function Kinds(algs: seq<MeasureAlgorithm>): (ks: seq<Kind>)
    ensures |ks| == |algs| && forall j :: 0 <= j < |algs| ==> ks[j] == algs[j].kind
  {
    seq(|algs|, j requires 0 <= j < |algs| => algs[j].kind)
  }

  function Checks(algs: seq<MeasureAlgorithm>): (cs: seq<int>)
    reads set j | 0 <= j < |algs| :: algs[j]
    ensures |cs| == |algs| && forall j :: 0 <= j < |algs| ==> cs[j] == algs[j].check
  {
    seq(|algs|, j requires 0 <= j < |algs| reads set i | 0 <= i < |algs| :: algs[i] => algs[j].check)
  }

  /** Report b falls where m says, and each of its rows' checksum covers the lines it had measured. */
  predicate Covers(b: Batch, m: Mark, kinds: seq<Kind>, c0: seq<int>, lines: seq<Option<Mol>>)
  {
    b.first == m.first && b.last == m.last && |b.rows| == |kinds| == |c0| && m.seen <= |lines| &&
    forall j :: 0 <= j < |kinds| ==> b.rows[j].check == c0[j] + CheckAfter(kinds[j], lines, m.seen)
  }

  /** The reports bs, one for each mark of ms. */
  predicate Agrees(bs: seq<Batch>, ms: seq<Mark>, kinds: seq<Kind>, c0: seq<int>, lines: seq<Option<Mol>>)
  {
    |bs| == |ms| && |kinds| == |c0| && forall k :: 0 <= k < |bs| ==> Covers(bs[k], ms[k], kinds, c0, lines)
  }

  lemma AgreesAppend(bs: seq<Batch>, ms: seq<Mark>, b: Batch, m: Mark, kinds: seq<Kind>, c0: seq<int>, lines: seq<Option<Mol>>)
    requires Agrees(bs, ms, kinds, c0, lines) && Covers(b, m, kinds, c0, lines)
    ensures Agrees(bs + [b], ms + [m], kinds, c0, lines)
  {
    assert forall k :: 0 <= k < |bs| ==> (bs + [b])[k] == bs[k] && (ms + [m])[k] == ms[k];
  }

  /** `for (MeasureAlgorithm alg : algs) alg.process(mol)`, with clock(line, j) the readings around algorithm j. */
  method ProcessAll(algs: array<MeasureAlgorithm>, mol: Mol, line: nat, clock: (nat, nat) -> (int, int, int))
    requires Distinct(algs[..]) && mol.Valid()
    modifies set j | 0 <= j < algs.Length :: algs[j]
    ensures forall j :: 0 <= j < algs.Length ==> algs[j].check == old(algs[j].check) + Expected(algs[j].kind, mol)
    ensures forall j :: 0 <= j < algs.Length ==> var (t0, t1, t2) := clock(line, j);
      algs[j].tInit == old(algs[j].tInit) + InitTime(algs[j].kind, t0, t1, t2) &&
      algs[j].tRun == old(algs[j].tRun) + RunTime(algs[j].kind, t0, t1, t2)
  {
    for j := 0 to algs.Length
      invariant forall i :: 0 <= i < j ==> algs[i].check == old(algs[i].check) + Expected(algs[i].kind, mol)
      invariant forall i :: 0 <= i < j ==> var (t0, t1, t2) := clock(line, i);
        algs[i].tInit == old(algs[i].tInit) + InitTime(algs[i].kind, t0, t1, t2) &&
        algs[i].tRun == old(algs[i].tRun) + RunTime(algs[i].kind, t0, t1, t2)
      invariant forall i :: j <= i < algs.Length ==>
        algs[i].check == old(algs[i].check) && algs[i].tInit == old(algs[i].tInit) && algs[i].tRun == old(algs[i].tRun)
    {
      var (t0, t1, t2) := clock(line, j);
      Process(algs[j], mol, t0, t1, t2);
    }
  }

  /** Every line parsed to a molecule is one an `IAtomContainer` could hold. */
  predicate Parsed(lines: seq<Option<Mol>>)
  {
    forall i :: 0 <= i < |lines| && lines[i].Some? ==> lines[i].value.Valid()
  }

  /** Each algorithm's checksum has grown by what the first i lines contribute to it. */
  predicate ChecksAt(algs: array<MeasureAlgorithm>, kinds: seq<Kind>, c0: seq<int>, lines: seq<Option<Mol>>, i: nat)
    reads algs, set j | 0 <= j < algs.Length :: algs[j]
  {
    i <= |lines| && |kinds| == |c0| == algs.Length &&
    forall j :: 0 <= j < algs.Length ==> algs[j].kind == kinds[j] && algs[j].check == c0[j] + CheckAfter(kinds[j], lines, i)
  }

  /** The loop body's `alg.process(mol)` for line i, or nothing when the line did not parse. */
  method ProcessLine(algs: array<MeasureAlgorithm>, lines: seq<Option<Mol>>, i: nat, clock: (nat, nat) -> (int, int, int),
                     ghost kinds: seq<Kind>, ghost c0: seq<int>)
    requires Distinct(algs[..]) && Parsed(lines) && i < |lines| && ChecksAt(algs, kinds, c0, lines, i)
    modifies set j | 0 <= j < algs.Length :: algs[j]
    ensures ChecksAt(algs, kinds, c0, lines, i + 1)
  {
    if lines[i].Some? {
      ProcessAll(algs, lines[i].value, i, clock);
    }
  }

  /** `report(...)` from inside or after the loop, with m saying where it falls and how many lines it has seen. */
  method ReportAt(algs: array<MeasureAlgorithm>, count: int, linenum: int, bs: seq<Batch>,
                  ghost ms: seq<Mark>, ghost m: Mark, ghost kinds: seq<Kind>, ghost c0: seq<int>, ghost lines: seq<Option<Mol>>)
    returns (bs': seq<Batch>)
    requires Distinct(algs[..]) && m == Mark(linenum - count, linenum, m.seen)
    requires Agrees(bs, ms, kinds, c0, lines) && ChecksAt(algs, kinds, c0, lines, m.seen)
    modifies set j | 0 <= j < algs.Length :: algs[j]
    ensures Agrees(bs', ms + [m], kinds, c0, lines) && ChecksAt(algs, kinds, c0, lines, m.seen)
  {
    var b := Report(algs, count, linenum);
    AgreesAppend(bs, ms, b, m, kinds, c0, lines);
    bs' := bs + [b];
  }

  /** The loop's state after i lines: the counters, the reports taken, and every checksum. */
  predicate Progress(algs: array<MeasureAlgorithm>, lines: seq<Option<Mol>>, step: int, fixed: bool, i: nat, count: int,
                     bs: seq<Batch>, ctr: Counters, kinds: seq<Kind>, c0: seq<int>)
    reads algs, set j | 0 <= j < algs.Length :: algs[j]
  {
    ctr == Batches(i, step, fixed) && count == ctr.count &&
    Agrees(bs, ctr.marks, kinds, c0, lines) && ChecksAt(algs, kinds, c0, lines, i)
  }

  /**
   * One pass of the loop over a file's lines, as written: count line i,
   * report when `count == step`, then parse and process it.
   */
  method LineAsWritten(algs: array<MeasureAlgorithm>, lines: seq<Option<Mol>>, i: nat, step: int, count: int, bs: seq<Batch>,
                       clock: (nat, nat) -> (int, int, int), ghost ctr: Counters, ghost kinds: seq<Kind>, ghost c0: seq<int>)
    returns (count': int, bs': seq<Batch>)
    requires Distinct(algs[..]) && Parsed(lines) && i < |lines|
    requires Progress(algs, lines, step, false, i, count, bs, ctr, kinds, c0)
    modifies set j | 0 <= j < algs.Length :: algs[j]
    ensures Progress(algs, lines, step, false, i + 1, count', bs', Tick(ctr, i, step, false), kinds, c0)
  {
    count', bs' := count + 1, bs;
    var linenum := i + 1;
    if count' == step {
      bs' := ReportAt(algs, count', linenum, bs, ctr.marks, Mark(linenum - count', linenum, i), kinds, c0, lines);
      count' := 0;
    }
    ProcessLine(algs, lines, i, clock, kinds, c0);
  }

  /** The same pass with line i processed before the batch check. */
  method LineFixed(algs: array<MeasureAlgorithm>, lines: seq<Option<Mol>>, i: nat, step: int, count: int, bs: seq<Batch>,
                   clock: (nat, nat) -> (int, int, int), ghost ctr: Counters, ghost kinds: seq<Kind>, ghost c0: seq<int>)
    returns (count': int, bs': seq<Batch>)
    requires Distinct(algs[..]) && Parsed(lines) && i < |lines|
    requires Progress(algs, lines, step, true, i, count, bs, ctr, kinds, c0)
    modifies set j | 0 <= j < algs.Length :: algs[j]
    ensures Progress(algs, lines, step, true, i + 1, count', bs', Tick(ctr, i, step, true), kinds, c0)
  {
    count', bs' := count + 1, bs;
    var linenum := i + 1;
    ProcessLine(algs, lines, i, clock, kinds, c0);
    if count' == step {
      bs' := ReportAt(algs, count', linenum, bs, ctr.marks, Mark(linenum - count', linenum, i + 1), kinds, c0, lines);
      count' := 0;
    }
  }

  /**
   * The loop over one file's lines, as written, and the report after it.
   * lines holds each line's parse, None where `parseSmiles` throws.
   */
  method MainLoop(algs: array<MeasureAlgorithm>, lines: seq<Option<Mol>>, step: int, clock: (nat, nat) -> (int, int, int))
    returns (batches: seq<Batch>)
    requires Distinct(algs[..]) && Parsed(lines)
    modifies set j | 0 <= j < algs.Length :: algs[j]
    ensures Agrees(batches, Schedule(|lines|, step, false), Kinds(algs[..]), old(Checks(algs[..])), lines)
  {
    ghost var kinds, c0 := Kinds(algs[..]), Checks(algs[..]);
    ghost var ctr := Counters(0, []);
    var count := 0;
    batches := [];
    for linenum := 0 to |lines|
      invariant Progress(algs, lines, step, false, linenum, count, batches, ctr, kinds, c0)
    {
      count, batches := LineAsWritten(algs, lines, linenum, step, count, batches, clock, ctr, kinds, c0);
      ctr := Tick(ctr, linenum, step, false);
    }
    batches := ReportAt(algs, count, |lines|, batches, ctr.marks, Mark(|lines| - count, |lines|, |lines|), kinds, c0, lines);
  }

  /** The same loop with each line processed before the batch check, so a report covers the lines it names. */
  method MainLoopFixed(algs: array<MeasureAlgorithm>, lines: seq<Option<Mol>>, step: int, clock: (nat, nat) -> (int, int, int))
    returns (batches: seq<Batch>)
    requires Distinct(algs[..]) && Parsed(lines)
    modifies set j | 0 <= j < algs.Length :: algs[j]
    ensures Agrees(batches, Schedule(|lines|, step, true), Kinds(algs[..]), old(Checks(algs[..])), lines)
  {
    ghost var kinds, c0 := Kinds(algs[..]), Checks(algs[..]);
    ghost var ctr := Counters(0, []);
    var count := 0;
    batches := [];
    for linenum := 0 to |lines|
      invariant Progress(algs, lines, step, true, linenum, count, batches, ctr, kinds, c0)
    {
      count, batches := LineFixed(algs, lines, linenum, step, count, batches, clock, ctr, kinds, c0);
      ctr := Tick(ctr, linenum, step, true);
    }
    batches := ReportAt(algs, count, |lines|, batches, ctr.marks, Mark(|lines| - count, |lines|, |lines|), kinds, c0, lines);
  }
}
