/**
 * The "duplicate throws" inspection: for the declared exception types of one
 * method's throws clause, every pair (i, j) with i < j is compared once, and a
 * problem is registered when the two types are identical or, unless
 * `ignoreSubclassing` is set, when one is assignable from the other.
 *
 * Exception types are an abstract carrier `T`; the host's type-assignability
 * query is the parameter `isAssignableFrom`, where `isAssignableFrom(a, b)`
 * stands for `a.isAssignableFrom(b)`. A reference of the throws list is
 * identified by its index, which is also the index of its type.
 */
module DuplicateThrowsInspection {
  import opened Wrappers

  /** The message of a registered problem. */
  datatype Problem<T> =
    | Duplicate               // the same type is declared twice
    | MoreGeneral(general: T) // a more general type `general` is also declared

  /**
   * One registered problem: the index of the highlighted reference, its
   * message, and the type the attached quick fix removes from the throws list.
   */
  datatype Report<T> = Report(flagged: nat, problem: Problem<T>, fixType: T)

  /** The verdict on the pair (i, j), i < j: at most one report. */
  function PairReport<T(==)>(types: seq<T>, i: nat, j: nat, ignoreSubclassing: bool,
                             isAssignableFrom: (T, T) -> bool): (r: Option<Report<T>>)
    requires i < j < |types|
    ensures r.Some? ==> r.value.flagged in {i, j}
    ensures r.Some? ==> r.value.fixType == types[r.value.flagged]
    ensures r.Some? && r.value.flagged == j ==> !ignoreSubclassing && r.value.problem.MoreGeneral?
    ensures r.None? <==>
      types[i] != types[j] &&
      (ignoreSubclassing || (!isAssignableFrom(types[j], types[i]) && !isAssignableFrom(types[i], types[j])))
  {
    var thrown, other := types[i], types[j];
    if thrown == other then Some(Report(i, Duplicate, thrown))
    else if ignoreSubclassing then None
    else if isAssignableFrom(other, thrown) then Some(Report(i, MoreGeneral(other), thrown))
    else if isAssignableFrom(thrown, other) then Some(Report(j, MoreGeneral(thrown), other))
    else None
  }

  /** The verdict on a pair as a sequence of at most one report; none for a pair outside the list. */
  function Verdict<T(==)>(types: seq<T>, ignoreSubclassing: bool,
                          isAssignableFrom: (T, T) -> bool): ((int, int)) -> seq<Report<T>>
  {
    (p: (int, int)) =>
      if 0 <= p.0 < p.1 < |types| then
        match PairReport(types, p.0, p.1, ignoreSubclassing, isAssignableFrom)
        case Some(rep) => [rep]
        case None => []
      else []
  }

  /** Lexicographic order on index pairs. */
  predicate LexLess(p: (int, int), q: (int, int)) {
    p.0 < q.0 || (p.0 == q.0 && p.1 < q.1)
  }

  /** The pairs (i, j) the inner loop of row i visits before column `upto`. */
  function RowPairs(i: nat, upto: nat): (r: seq<(int, int)>)
    ensures |r| == if upto <= i + 1 then 0 else upto - i - 1
    decreases upto
  {
    if upto <= i + 1 then [] else RowPairs(i, upto - 1) + [(i, upto - 1)]
  }

  /** The pairs the nested loop over n types visits during its first `rows` rows. */
  function PairsBefore(n: nat, rows: nat): seq<(int, int)>
    requires rows <= n
  {
    if rows == 0 then [] else PairsBefore(n, rows - 1) + RowPairs(rows - 1, n)
  }

  /** All pairs the nested loop over n types visits, in visiting order. */
  function Pairs(n: nat): seq<(int, int)>
  {
    PairsBefore(n, n)
  }

  /** The concatenation of f(p) over the elements p of ps, in order. */
  function FlatMap<P, R>(ps: seq<P>, f: P -> seq<R>): seq<R>
  {
    if ps == [] then [] else FlatMap(ps[..|ps| - 1], f) + f(ps[|ps| - 1])
  }

  /** Everything the inspection registers for one throws list, in order. */
  function Reports<T(==)>(types: seq<T>, ignoreSubclassing: bool,
                          isAssignableFrom: (T, T) -> bool): seq<Report<T>>
  {
    FlatMap(Pairs(|types|), Verdict(types, ignoreSubclassing, isAssignableFrom))
  }

  /**
   * The comparison of one pair (i, j), i < j, inside the visitor's inner loop:
   * the type at i is `thrown`, the type at j is `other`; when the later entry
   * is the narrower one, the highlighted reference and the removed type switch
   * to it.
   */
  method ComparePair<T(==)>(types: seq<T>, i: nat, j: nat, ignoreSubclassing: bool,
                            isAssignableFrom: (T, T) -> bool)
    returns (report: Option<Report<T>>)
    requires i < j < |types|
    ensures report == PairReport(types, i, j, ignoreSubclassing, isAssignableFrom)
  {
    var thrown, other := types[i], types[j];
    var problem: Option<Problem<T>> := None;
    var flagged := i;
    if thrown == other {
      problem := Some(Duplicate);
    } else if !ignoreSubclassing {
      if isAssignableFrom(other, thrown) {
        problem := Some(MoreGeneral(other));
      } else if isAssignableFrom(thrown, other) {
        problem := Some(MoreGeneral(thrown));
        flagged := j;
        thrown := other;
      }
    }
    report := if problem.Some? then Some(Report(flagged, problem.value, thrown)) else None;
  }

  /**
   * The inner loop of the visitor for the entry at i: compares it with every
   * later entry, in order.
   */
  method CompareRow<T(==)>(types: seq<T>, i: nat, ignoreSubclassing: bool,
                           isAssignableFrom: (T, T) -> bool)
    returns (row: seq<Report<T>>)
    requires i < |types|
    ensures row == FlatMap(RowPairs(i, |types|), Verdict(types, ignoreSubclassing, isAssignableFrom))
  {
    ghost var verdict := Verdict(types, ignoreSubclassing, isAssignableFrom);
    row := [];
    for j := i + 1 to |types|
      invariant row == FlatMap(RowPairs(i, j), verdict)
    {
      VerdictAt(types, ignoreSubclassing, isAssignableFrom, i, j);
      FlatMapSnoc(RowPairs(i, j), (i, j), verdict);
      var report := ComparePair(types, i, j, ignoreSubclassing, isAssignableFrom);
      if report.Some? {
        row := row + [report.value];
      }
    }
  }

  /**
   * The visitor's body for one method: a nested loop over the throws list
   * that registers at most one problem per pair, in the order visited.
   */
  method VisitMethod<T(==)>(types: seq<T>, ignoreSubclassing: bool,
                            isAssignableFrom: (T, T) -> bool)
    returns (registered: seq<Report<T>>)
    ensures registered == Reports(types, ignoreSubclassing, isAssignableFrom)
  {
    var n := |types|;
    ghost var verdict := Verdict(types, ignoreSubclassing, isAssignableFrom);
    registered := [];
    for i := 0 to n
      invariant registered == FlatMap(PairsBefore(n, i), verdict)
    {
      var row := CompareRow(types, i, ignoreSubclassing, isAssignableFrom);
      FlatMapAppend(PairsBefore(n, i), RowPairs(i, n), verdict);
      registered := registered + row;
    }
  }

  // ---------------------------------------------------------------------------
  // Loop steps
  // ---------------------------------------------------------------------------

  /** The verdict on a pair inside the list is the report of that pair, if any. */
  lemma VerdictAt<T>(types: seq<T>, ignoreSubclassing: bool, isAssignableFrom: (T, T) -> bool, i: nat, j: nat)
    requires i < j < |types|
    ensures var r := PairReport(types, i, j, ignoreSubclassing, isAssignableFrom);
      Verdict(types, ignoreSubclassing, isAssignableFrom)((i, j)) == if r.Some? then [r.value] else []
  {
  }

  lemma FlatMapSnoc<P, R>(ps: seq<P>, p: P, f: P -> seq<R>)
    ensures FlatMap(ps + [p], f) == FlatMap(ps, f) + f(p)
  {
    assert (ps + [p])[..|ps|] == ps;
  }

  lemma {:induction false} FlatMapAppend<P, R>(ps: seq<P>, qs: seq<P>, f: P -> seq<R>)
    ensures FlatMap(ps + qs, f) == FlatMap(ps, f) + FlatMap(qs, f)
    decreases |qs|
  {
    if qs != [] {
      var front, last := qs[..|qs| - 1], qs[|qs| - 1];
      assert qs == front + [last];
      assert ps + qs == (ps + front) + [last];
      FlatMapAppend(ps, front, f);
      FlatMapSnoc(ps + front, last, f);
      FlatMapSnoc(front, last, f);
    } else {
      assert ps + qs == ps;
    }
  }

  // ---------------------------------------------------------------------------
  // The pairs visited
  // ---------------------------------------------------------------------------

  lemma {:induction false} RowPairsAt(i: nat, upto: nat, k: nat)
    requires k < |RowPairs(i, upto)|
    ensures RowPairs(i, upto)[k] == (i, i + 1 + k)
    decreases upto
  {
    if k < |RowPairs(i, upto - 1)| {
      RowPairsAt(i, upto - 1, k);
    }
  }

  lemma {:induction false} RowPairsMembership(i: nat, upto: nat, p: (int, int))
    ensures p in RowPairs(i, upto) <==> p.0 == i && i < p.1 < upto
    decreases upto
  {
    if upto > i + 1 {
      RowPairsMembership(i, upto - 1, p);
    }
  }

  lemma {:induction false} PairsBeforeMembership(n: nat, rows: nat, p: (int, int))
    requires rows <= n
    ensures p in PairsBefore(n, rows) <==> 0 <= p.0 < rows && p.0 < p.1 < n
  {
    if rows > 0 {
      var front, row := PairsBefore(n, rows - 1), RowPairs(rows - 1, n);
      assert p in PairsBefore(n, rows) <==> p in front || p in row;
      PairsBeforeMembership(n, rows - 1, p);
      RowPairsMembership(rows - 1, n, p);
    }
  }

  /** Exactly the index pairs i < j < n are compared. */
  lemma PairsMembership(n: nat, p: (int, int))
    ensures p in Pairs(n) <==> 0 <= p.0 < p.1 < n
  {
    PairsBeforeMembership(n, n, p);
  }

  lemma {:induction false} PairsBeforeLength(n: nat, rows: nat)
    requires rows <= n
    ensures 2 * |PairsBefore(n, rows)| == rows * (2 * n - rows - 1)
  {
    if rows > 0 {
      PairsBeforeLength(n, rows - 1);
      calc {
        2 * |PairsBefore(n, rows)|;
        2 * |PairsBefore(n, rows - 1)| + 2 * (n - rows);
        (rows - 1) * (2 * n - rows) + 2 * (n - rows);
        rows * (2 * n - rows - 1);
      }
    }
  }

  /** There are n(n-1)/2 pairs: each unordered pair of positions once. */
  lemma PairsLength(n: nat)
    ensures |Pairs(n)| == n * (n - 1) / 2
  {
    PairsBeforeLength(n, n);
  }

  lemma {:induction false} PairsBeforeSorted(n: nat, rows: nat)
    requires rows <= n
    ensures forall a, b :: 0 <= a < b < |PairsBefore(n, rows)| ==>
      LexLess(PairsBefore(n, rows)[a], PairsBefore(n, rows)[b])
  {
    if rows > 0 {
      PairsBeforeSorted(n, rows - 1);
      var front, row := PairsBefore(n, rows - 1), RowPairs(rows - 1, n);
      forall a, b | 0 <= a < b < |front + row|
        ensures LexLess((front + row)[a], (front + row)[b])
      {
        if a >= |front| {
          RowPairsAt(rows - 1, n, a - |front|);
          RowPairsAt(rows - 1, n, b - |front|);
        } else if b >= |front| {
          PairsBeforeMembership(n, rows - 1, front[a]);
          RowPairsAt(rows - 1, n, b - |front|);
        }
      }
    }
  }

  /** The pairs are visited in strictly increasing lexicographic order. */
  lemma PairsSorted(n: nat)
    ensures forall a, b :: 0 <= a < b < |Pairs(n)| ==> LexLess(Pairs(n)[a], Pairs(n)[b])
  {
    PairsBeforeSorted(n, n);
  }

  // ---------------------------------------------------------------------------
  // Concatenating per-pair verdicts
  // ---------------------------------------------------------------------------

  /** An element of the concatenation comes from some element of `ps`, and conversely. */
  lemma {:induction false} FlatMapMembership<P, R>(ps: seq<P>, f: P -> seq<R>, r: R)
    ensures r in FlatMap(ps, f) <==> exists p :: p in ps && r in f(p)
  {
    if ps != [] {
      var front, last := ps[..|ps| - 1], ps[|ps| - 1];
      FlatMapMembership(front, f, r);
      assert forall p :: p in ps <==> p in front || p == last by {
        assert ps == front + [last];
      }
    }
  }

  /** When each element contributes at most one value, there are at most |ps| values. */
  lemma {:induction false} FlatMapLength<P, R>(ps: seq<P>, f: P -> seq<R>)
    requires forall p :: |f(p)| <= 1
    ensures |FlatMap(ps, f)| <= |ps|
  {
    if ps != [] {
      FlatMapLength(ps[..|ps| - 1], f);
    }
  }

  /** Every verdict holds at most one report. */
  lemma VerdictAtMostOne<T>(types: seq<T>, ignoreSubclassing: bool, isAssignableFrom: (T, T) -> bool)
    ensures forall p :: |Verdict(types, ignoreSubclassing, isAssignableFrom)(p)| <= 1
  {
  }

  // ---------------------------------------------------------------------------
  // What is registered
  // ---------------------------------------------------------------------------

  /** A problem is registered exactly when some pair i < j of the throws list yields it. */
  lemma ReportsMembership<T>(types: seq<T>, ignoreSubclassing: bool,
                             isAssignableFrom: (T, T) -> bool, r: Report<T>)
    ensures r in Reports(types, ignoreSubclassing, isAssignableFrom) <==>
      exists i: nat, j: nat :: i < j < |types| &&
        PairReport(types, i, j, ignoreSubclassing, isAssignableFrom) == Some(r)
  {
    var verdict := Verdict(types, ignoreSubclassing, isAssignableFrom);
    FlatMapMembership(Pairs(|types|), verdict, r);
    if r in Reports(types, ignoreSubclassing, isAssignableFrom) {
      var p :| p in Pairs(|types|) && r in verdict(p);
      PairsMembership(|types|, p);
      var i: nat, j: nat := p.0, p.1;
      assert PairReport(types, i, j, ignoreSubclassing, isAssignableFrom) == Some(r);
    }
    if exists i: nat, j: nat :: i < j < |types| &&
         PairReport(types, i, j, ignoreSubclassing, isAssignableFrom) == Some(r) {
      var i: nat, j: nat :| i < j < |types| &&
        PairReport(types, i, j, ignoreSubclassing, isAssignableFrom) == Some(r);
      PairsMembership(|types|, (i, j));
      assert r in verdict((i, j));
    }
  }

  /** At most n(n-1)/2 problems, and none for fewer than two declared types. */
  lemma ReportsBound<T>(types: seq<T>, ignoreSubclassing: bool, isAssignableFrom: (T, T) -> bool)
    ensures |Reports(types, ignoreSubclassing, isAssignableFrom)| <= |types| * (|types| - 1) / 2
    ensures |types| < 2 ==> Reports(types, ignoreSubclassing, isAssignableFrom) == []
  {
    VerdictAtMostOne(types, ignoreSubclassing, isAssignableFrom);
    FlatMapLength(Pairs(|types|), Verdict(types, ignoreSubclassing, isAssignableFrom));
    PairsLength(|types|);
  }

  /** The quick fix always removes exactly the highlighted entry of the throws list. */
  lemma FixRemovesFlagged<T>(types: seq<T>, ignoreSubclassing: bool,
                             isAssignableFrom: (T, T) -> bool, r: Report<T>)
    requires r in Reports(types, ignoreSubclassing, isAssignableFrom)
    ensures r.flagged < |types| && r.fixType == types[r.flagged]
  {
    ReportsMembership(types, ignoreSubclassing, isAssignableFrom, r);
  }

  /** Identical types: the earlier reference is flagged and its type is removed. */
  lemma DuplicateFlagsEarlier<T>(types: seq<T>, ignoreSubclassing: bool,
                                 isAssignableFrom: (T, T) -> bool, i: nat, j: nat)
    requires i < j < |types| && types[i] == types[j]
    ensures Report(i, Duplicate, types[i]) in Reports(types, ignoreSubclassing, isAssignableFrom)
  {
    ReportsMembership(types, ignoreSubclassing, isAssignableFrom, Report(i, Duplicate, types[i]));
    assert PairReport(types, i, j, ignoreSubclassing, isAssignableFrom) == Some(Report(i, Duplicate, types[i]));
  }

  /**
   * A later type assignable from an earlier, different one: the earlier (narrower)
   * entry is flagged, and the message names the later, broader type. This branch
   * is taken even when the two types are assignable both ways.
   */
  lemma NarrowerEarlierFlagged<T>(types: seq<T>, isAssignableFrom: (T, T) -> bool, i: nat, j: nat)
    requires i < j < |types| && types[i] != types[j]
    requires isAssignableFrom(types[j], types[i])
    ensures Report(i, MoreGeneral(types[j]), types[i]) in Reports(types, false, isAssignableFrom)
  {
    var r := Report(i, MoreGeneral(types[j]), types[i]);
    ReportsMembership(types, false, isAssignableFrom, r);
    assert PairReport(types, i, j, false, isAssignableFrom) == Some(r);
  }

  /**
   * Otherwise, an earlier type assignable from a later one: the later (narrower)
   * entry is flagged, and the message names the earlier, broader type.
   */
  lemma NarrowerLaterFlagged<T>(types: seq<T>, isAssignableFrom: (T, T) -> bool, i: nat, j: nat)
    requires i < j < |types| && types[i] != types[j]
    requires !isAssignableFrom(types[j], types[i]) && isAssignableFrom(types[i], types[j])
    ensures Report(j, MoreGeneral(types[i]), types[j]) in Reports(types, false, isAssignableFrom)
  {
    var r := Report(j, MoreGeneral(types[i]), types[j]);
    ReportsMembership(types, false, isAssignableFrom, r);
    assert PairReport(types, i, j, false, isAssignableFrom) == Some(r);
  }

  /** With `ignoreSubclassing`, only entries that duplicate a later entry are reported. */
  lemma IgnoreSubclassingOnlyDuplicates<T>(types: seq<T>, isAssignableFrom: (T, T) -> bool, r: Report<T>)
    requires r in Reports(types, true, isAssignableFrom)
    ensures r.problem == Duplicate
    ensures exists j :: r.flagged < j < |types| && types[j] == types[r.flagged]
  {
    ReportsMembership(types, true, isAssignableFrom, r);
  }

  /**
   * No problem is registered exactly when the declared types are pairwise
   * distinct and, unless `ignoreSubclassing` is set, pairwise unrelated by
   * assignability.
   */
  lemma UnrelatedNoReports<T>(types: seq<T>, ignoreSubclassing: bool, isAssignableFrom: (T, T) -> bool)
    ensures Reports(types, ignoreSubclassing, isAssignableFrom) == [] <==>
      forall i, j :: 0 <= i < j < |types| ==>
        types[i] != types[j] &&
        (ignoreSubclassing || (!isAssignableFrom(types[i], types[j]) && !isAssignableFrom(types[j], types[i])))
  {
    var reports := Reports(types, ignoreSubclassing, isAssignableFrom);
    if reports != [] {
      ReportsMembership(types, ignoreSubclassing, isAssignableFrom, reports[0]);
    } else {
      forall i, j | 0 <= i < j < |types|
        ensures types[i] != types[j] &&
          (ignoreSubclassing || (!isAssignableFrom(types[i], types[j]) && !isAssignableFrom(types[j], types[i])))
      {
        var verdict := PairReport(types, i, j, ignoreSubclassing, isAssignableFrom);
        if verdict.Some? {
          ReportsMembership(types, ignoreSubclassing, isAssignableFrom, verdict.value);
        }
      }
    }
  }

  /**
   * Every registered problem is justified by the throws list: a duplicate has
   * an equal entry elsewhere in the list, and a "more general" message names
   * another, different entry that the flagged one is assignable to, which is
   * only reported when subclassing is not ignored.
   */
  lemma ReportsJustified<T>(types: seq<T>, ignoreSubclassing: bool,
                            isAssignableFrom: (T, T) -> bool, r: Report<T>)
    requires r in Reports(types, ignoreSubclassing, isAssignableFrom)
    ensures r.flagged < |types|
    ensures r.problem == Duplicate ==>
      exists k :: 0 <= k < |types| && k != r.flagged && types[k] == types[r.flagged]
    ensures r.problem.MoreGeneral? ==>
      !ignoreSubclassing && r.problem.general != types[r.flagged] &&
      isAssignableFrom(r.problem.general, types[r.flagged]) &&
      exists k :: 0 <= k < |types| && k != r.flagged && types[k] == r.problem.general
  {
    ReportsMembership(types, ignoreSubclassing, isAssignableFrom, r);
    var i: nat, j: nat :| i < j < |types| &&
      PairReport(types, i, j, ignoreSubclassing, isAssignableFrom) == Some(r);
    if r.flagged == i {
      assert types[j] == (if r.problem == Duplicate then types[i] else r.problem.general);
    } else {
      assert types[i] == r.problem.general;
    }
  }

  /** A type declared three times: the first reference is reported twice, the second once. */
  lemma ThreeDuplicates<T>(x: T, ignoreSubclassing: bool, isAssignableFrom: (T, T) -> bool)
    ensures Reports([x, x, x], ignoreSubclassing, isAssignableFrom)
      == [Report(0, Duplicate, x), Report(0, Duplicate, x), Report(1, Duplicate, x)]
  {
    var types := [x, x, x];
    var verdict := Verdict(types, ignoreSubclassing, isAssignableFrom);
    assert RowPairs(0, 3) == [(0, 1), (0, 2)];
    assert RowPairs(1, 3) == [(1, 2)];
    assert RowPairs(2, 3) == [];
    assert Pairs(3) == [(0, 1), (0, 2)] + [(1, 2)] by {
      assert PairsBefore(3, 1) == [(0, 1), (0, 2)];
    }
    VerdictAt(types, ignoreSubclassing, isAssignableFrom, 0, 1);
    VerdictAt(types, ignoreSubclassing, isAssignableFrom, 0, 2);
    VerdictAt(types, ignoreSubclassing, isAssignableFrom, 1, 2);
    FlatMapSnoc([(0, 1), (0, 2)], (1, 2), verdict);
    FlatMapSnoc([(0, 1)], (0, 2), verdict);
    FlatMapSnoc([], (0, 1), verdict);
  }
}
