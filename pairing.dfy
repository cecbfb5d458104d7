/**
 * Pair resolution (app.py, get_file_pairs): the case files and the summary
 * files are sorted independently, by Python's order on strings, and then
 * zipped position by position. Zipping truncates silently to the shorter list.
 */
module Pairing {

  /** Python's `a <= b` on `str`: lexicographic by code point, a proper prefix first. */
  predicate LexLe(a: string, b: string)
  {
    a == [] || (b != [] && (a[0] < b[0] || (a[0] == b[0] && LexLe(a[1..], b[1..]))))
  }

  lemma {:induction false} LexLeReflexive(a: string)
    ensures LexLe(a, a)
  {
    if a != [] { LexLeReflexive(a[1..]); }
  }

  lemma {:induction false} LexLeTotal(a: string, b: string)
    ensures LexLe(a, b) || LexLe(b, a)
  {
    if a != [] && b != [] && a[0] == b[0] { LexLeTotal(a[1..], b[1..]); }
  }

  lemma {:induction false} LexLeAntisymmetric(a: string, b: string)
    requires LexLe(a, b) && LexLe(b, a)
    ensures a == b
  {
    if a != [] {
      LexLeAntisymmetric(a[1..], b[1..]);
      assert a == [a[0]] + a[1..] && b == [b[0]] + b[1..];
    }
  }

  lemma {:induction false} LexLeTransitive(a: string, b: string, c: string)
    requires LexLe(a, b) && LexLe(b, c)
    ensures LexLe(a, c)
  {
    if a != [] && a[0] == b[0] && b[0] == c[0] {
      LexLeTransitive(a[1..], b[1..], c[1..]);
    }
  }

  /**
   * Glob returns full paths that share their directory: comparing them is the
   * same as comparing the file names.
   */
  lemma {:induction false} CommonDirectoryOrder(dir: string, a: string, b: string)
    ensures LexLe(dir + a, dir + b) <==> LexLe(a, b)
  {
    if dir != [] {
      assert (dir + a)[1..] == dir[1..] + a;
      assert (dir + b)[1..] == dir[1..] + b;
      CommonDirectoryOrder(dir[1..], a, b);
    } else {
      assert dir + a == a && dir + b == b;
    }
  }

  predicate IsSorted(s: seq<string>)
  {
    forall i, j :: 0 <= i < j < |s| ==> LexLe(s[i], s[j])
  }

  /** Insertion of one path into a list, before the first element it does not exceed. */
  function Insert(x: string, s: seq<string>): (r: seq<string>)
    ensures multiset(r) == multiset(s) + multiset{x}
  {
    if s == [] then [x]
    else if LexLe(x, s[0]) then [x] + s
    else
      assert s == [s[0]] + s[1..];
      [s[0]] + Insert(x, s[1..])
  }

  /** Every element of `s` is at least `lo`. */
  predicate AllAtLeast(lo: string, s: seq<string>)
  {
    forall k :: 0 <= k < |s| ==> LexLe(lo, s[k])
  }

  lemma SortedCons(h: string, t: seq<string>)
    ensures IsSorted([h] + t) <==> AllAtLeast(h, t) && IsSorted(t)
  {
    var s := [h] + t;
    if AllAtLeast(h, t) && IsSorted(t) {
      forall i, j | 0 <= i < j < |s| ensures LexLe(s[i], s[j]) {
        if i == 0 { assert s[j] == t[j - 1]; } else { assert s[i] == t[i - 1] && s[j] == t[j - 1]; }
      }
    }
    if IsSorted(s) {
      forall i, j | 0 <= i < j < |t| ensures LexLe(t[i], t[j]) { assert t[i] == s[i + 1] && t[j] == s[j + 1]; }
      forall k | 0 <= k < |t| ensures LexLe(h, t[k]) { assert s[0] == h && t[k] == s[k + 1] && LexLe(s[0], s[k + 1]); }
    }
  }

  lemma {:induction false} InsertLowerBound(lo: string, x: string, s: seq<string>)
    requires LexLe(lo, x) && AllAtLeast(lo, s)
    ensures AllAtLeast(lo, Insert(x, s))
  {
    if s != [] && !LexLe(x, s[0]) {
      InsertLowerBound(lo, x, s[1..]);
      var r := Insert(x, s);
      forall k | 0 <= k < |r| ensures LexLe(lo, r[k]) {
        if k > 0 { assert r[k] == Insert(x, s[1..])[k - 1]; }
      }
    }
  }

  lemma {:induction false} InsertSorted(x: string, s: seq<string>)
    requires IsSorted(s)
    ensures IsSorted(Insert(x, s))
  {
    if s == [] {
    } else if LexLe(x, s[0]) {
      forall k | 0 <= k < |s| ensures LexLe(x, s[k]) {
        if k > 0 { LexLeTransitive(x, s[0], s[k]); }
      }
      SortedCons(x, s);
    } else {
      assert s == [s[0]] + s[1..];
      SortedCons(s[0], s[1..]);
      LexLeTotal(x, s[0]);
      InsertLowerBound(s[0], x, s[1..]);
      InsertSorted(x, s[1..]);
      SortedCons(s[0], Insert(x, s[1..]));
    }
  }

  /** Python's `sorted` on a list of paths. */
  function Sort(s: seq<string>): (r: seq<string>)
    ensures multiset(r) == multiset(s)
    ensures |r| == |s|
  {
    if s == [] then []
    else
      assert s == [s[0]] + s[1..];
      Insert(s[0], Sort(s[1..]))
  }

  lemma {:induction false} SortSorted(s: seq<string>)
    ensures IsSorted(Sort(s))
  {
    if s != [] {
      SortSorted(s[1..]);
      InsertSorted(s[0], Sort(s[1..]));
    }
  }

  lemma SortedHeadIsLeast(s: seq<string>, y: string)
    requires IsSorted(s) && y in multiset(s)
    ensures LexLe(s[0], y)
  {
    var i :| 0 <= i < |s| && s[i] == y;
    if i == 0 { LexLeReflexive(y); }
  }

  lemma TailMultiset(s: seq<string>)
    requires s != []
    ensures multiset(s[1..]) == multiset(s) - multiset{s[0]}
    ensures |s| == |multiset(s)|
  {
    assert s == [s[0]] + s[1..];
  }

  /** Under a total order, a sorted permutation is unique. */
  lemma {:induction false} SortedPermutationUnique(a: seq<string>, b: seq<string>)
    requires IsSorted(a) && IsSorted(b) && multiset(a) == multiset(b)
    ensures a == b
  {
    if a == [] {
      assert |b| == |multiset(b)| == 0;
    } else {
      TailMultiset(a);
      TailMultiset(b);
      SortedHeadIsLeast(a, b[0]);
      SortedHeadIsLeast(b, a[0]);
      LexLeAntisymmetric(a[0], b[0]);
      SortedCons(a[0], a[1..]);
      SortedCons(b[0], b[1..]);
      assert a == [a[0]] + a[1..] && b == [b[0]] + b[1..];
      SortedPermutationUnique(a[1..], b[1..]);
    }
  }

  /** Sort is Python's `sorted`: the one sorted permutation of its input. */
  lemma {:induction false} SortIsTheSortedPermutation(s: seq<string>, t: seq<string>)
    ensures (IsSorted(t) && multiset(t) == multiset(s)) <==> t == Sort(s)
  {
    SortSorted(s);
    if IsSorted(t) && multiset(t) == multiset(s) {
      SortedPermutationUnique(t, Sort(s));
    }
  }

  /** A (clinical case, discharge summary) association under review. */
  datatype Pair = Pair(casePath: string, summaryPath: string)

  /** Python's `list(zip(xs, ys))`. */
  function Zip(xs: seq<string>, ys: seq<string>): (r: seq<Pair>)
    ensures |r| == if |xs| <= |ys| then |xs| else |ys|
    ensures forall i :: 0 <= i < |r| ==> r[i] == Pair(xs[i], ys[i])
  {
    if xs == [] || ys == [] then []
    else [Pair(xs[0], ys[0])] + Zip(xs[1..], ys[1..])
  }

  /** get_file_pairs, with the two glob results as inputs in any order. */
  function FilePairs(caseFiles: seq<string>, summaryFiles: seq<string>): seq<Pair>
  {
    Zip(Sort(caseFiles), Sort(summaryFiles))
  }

  /**
   * The pairs are the positional zip of the two sorted lists: there are as
   * many as the shorter list has files, and pair i holds the i-th case and
   * the i-th summary in sorted order.
   */
  lemma {:induction false} FilePairsArePositional(caseFiles: seq<string>, summaryFiles: seq<string>, sortedCases: seq<string>, sortedSummaries: seq<string>)
    requires IsSorted(sortedCases) && multiset(sortedCases) == multiset(caseFiles) && |sortedCases| == |caseFiles|
    requires IsSorted(sortedSummaries) && multiset(sortedSummaries) == multiset(summaryFiles) && |sortedSummaries| == |summaryFiles|
    ensures var r := FilePairs(caseFiles, summaryFiles);
      && |r| == (if |caseFiles| <= |summaryFiles| then |caseFiles| else |summaryFiles|)
      && forall i :: 0 <= i < |r| ==> r[i] == Pair(sortedCases[i], sortedSummaries[i])
  {
    SortIsTheSortedPermutation(caseFiles, sortedCases);
    SortIsTheSortedPermutation(summaryFiles, sortedSummaries);
  }

  /** The order in which the files were discovered does not matter. */
  lemma {:induction false} FilePairsIgnoreDiscoveryOrder(c1: seq<string>, s1: seq<string>, c2: seq<string>, s2: seq<string>)
    requires multiset(c1) == multiset(c2) && multiset(s1) == multiset(s2)
    ensures FilePairs(c1, s1) == FilePairs(c2, s2)
  {
    SortSorted(c2);
    SortSorted(s2);
    SortIsTheSortedPermutation(c1, Sort(c2));
    SortIsTheSortedPermutation(s1, Sort(s2));
  }

  /** Both columns of the pair list are in sorted order, and every entry is a discovered file. */
  lemma {:induction false} FilePairsSortedAndDrawnFromInputs(caseFiles: seq<string>, summaryFiles: seq<string>)
    ensures var r := FilePairs(caseFiles, summaryFiles);
      && (forall i, j :: 0 <= i < j < |r| ==> LexLe(r[i].casePath, r[j].casePath) && LexLe(r[i].summaryPath, r[j].summaryPath))
      && (forall i :: 0 <= i < |r| ==> r[i].casePath in caseFiles && r[i].summaryPath in summaryFiles)
  {
    SortSorted(caseFiles);
    SortSorted(summaryFiles);
    var sc, ss := Sort(caseFiles), Sort(summaryFiles);
    forall i | 0 <= i < |FilePairs(caseFiles, summaryFiles)|
      ensures FilePairs(caseFiles, summaryFiles)[i].casePath in caseFiles
      ensures FilePairs(caseFiles, summaryFiles)[i].summaryPath in summaryFiles
    {
      assert sc[i] in multiset(sc);
      assert ss[i] in multiset(ss);
    }
  }

  /**
   * Truncation: when there are more case files than summaries, the largest
   * case files in sorted order belong to no pair.
   */
  lemma FilePairsTruncate(caseFiles: seq<string>, summaryFiles: seq<string>)
    requires |summaryFiles| < |caseFiles|
    ensures |FilePairs(caseFiles, summaryFiles)| == |summaryFiles|
    ensures forall i :: 0 <= i < |summaryFiles| ==> FilePairs(caseFiles, summaryFiles)[i].casePath == Sort(caseFiles)[i]
  {
  }
}
