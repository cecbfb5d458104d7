/**
 * Document identifiers (app.py line 144): `os.path.basename(path).split(".")[0]`,
 * the file name of the case path cut before its first dot. Paths use `/`.
 */
module DocIds {

  /** POSIX `os.path.basename`: everything after the last `/`. */
  function Basename(p: string): (b: string)
    ensures '/' !in b
    ensures |b| <= |p| && b == p[|p| - |b|..]
    ensures |b| < |p| ==> p[|p| - |b| - 1] == '/'
  {
    if p == [] || p[|p| - 1] == '/' then []
    else
      var b' := Basename(p[..|p| - 1]);
      assert p[..|p| - 1][|p| - 1 - |b'|..] + [p[|p| - 1]] == p[|p| - 1 - |b'|..];
      b' + [p[|p| - 1]]
  }

  /** `s.split(".")[0]`: everything before the first `.`. */
  function Stem(s: string): (r: string)
    ensures '.' !in r
    ensures |r| <= |s| && r == s[..|r|]
    ensures |r| < |s| ==> s[|r|] == '.'
  {
    if s == [] || s[0] == '.' then [] else [s[0]] + Stem(s[1..])
  }

  /** The identifier of the document whose clinical case is at `casePath`. */
  function DocId(casePath: string): string
  {
    Stem(Basename(casePath))
  }

  /**
   * `path` splits as directory, identifier and extension: the directory is
   * empty or ends with `/`, the identifier holds neither `/` nor `.`, and the
   * extension is empty or starts with `.` and holds no `/`.
   */
  predicate IsIdSplit(path: string, dir: string, id: string, ext: string)
  {
    && path == dir + id + ext
    && (dir == [] || dir[|dir| - 1] == '/')
    && '/' !in id && '.' !in id
    && '/' !in ext && (ext == [] || ext[0] == '.')
  }

  /** Every path has such a split, around its identifier. */
  lemma {:induction false} DocIdSplits(path: string)
    ensures var b := Basename(path);
      IsIdSplit(path, path[..|path| - |b|], DocId(path), b[|DocId(path)|..])
  {
    var b := Basename(path);
    BasenameSplits(path);
    StemSplits(b);
    var dir, id, ext := path[..|path| - |b|], Stem(b), b[|Stem(b)|..];
    ConcatAssociative(dir, id, ext);
  }

  /**
   * Regrouping the three parts; stated on its own because the solver finds
   * it slowly in the middle of the split proof.
   */
  lemma ConcatAssociative(a: string, b: string, c: string)
    ensures a + b + c == a + (b + c)
  {
  }

  lemma BasenameSplits(path: string)
    ensures var b := Basename(path); var dir := path[..|path| - |b|];
      path == dir + b && (dir == [] || dir[|dir| - 1] == '/')
  {
  }

  lemma StemSplits(b: string)
    requires '/' !in b
    ensures var id := Stem(b); var ext := b[|id|..];
      b == id + ext && '/' !in id && '.' !in id && '/' !in ext && (ext == [] || ext[0] == '.')
  {
    var id := Stem(b);
    assert '/' !in b[..|id|] && '/' !in b[|id|..] by {
      forall k | 0 <= k < |b| ensures b[k] != '/' { assert b[k] in b; }
    }
  }

  lemma BasenameOfSplit(path: string, dir: string, base: string)
    requires path == dir + base
    requires dir == [] || dir[|dir| - 1] == '/'
    requires '/' !in base
    ensures Basename(path) == base
  {
    assert Basename(path) == path[|dir|..];
  }

  lemma StemOfSplit(id: string, ext: string)
    requires '.' !in id
    requires ext == [] || ext[0] == '.'
    ensures Stem(id + ext) == id
  {
    assert Stem(id + ext) == (id + ext)[..|id|];
  }

  /** The split is unique: any such split has the document identifier in the middle. */
  lemma DocIdUnique(path: string, dir: string, id: string, ext: string)
    requires IsIdSplit(path, dir, id, ext)
    ensures DocId(path) == id
  {
    assert path == dir + (id + ext);
    assert '/' !in id + ext by {
      forall k | 0 <= k < |id + ext| ensures (id + ext)[k] != '/' {
        if k >= |id| { assert (id + ext)[k] == ext[k - |id|]; }
      }
    }
    BasenameOfSplit(path, dir, id + ext);
    StemOfSplit(id, ext);
  }

  /** `pairs/original/a.b.txt` gives `a`. */
  lemma DocIdExample()
    ensures DocId("pairs/original/a.b.txt") == "a"
  {
    DocIdUnique("pairs/original/a.b.txt", "pairs/original/", "a", ".b.txt");
  }

  /** The case file `NA.txt` gets the identifier `NA`. */
  lemma NaCaseFileId()
    ensures DocId("pairs/original/NA.txt") == "NA"
  {
    DocIdUnique("pairs/original/NA.txt", "pairs/original/", "NA", ".txt");
  }

  /** Two case files that differ only after their first dot share one identifier. */
  lemma DocIdIgnoresEverythingAfterFirstDot(dir: string, id: string, e1: string, e2: string)
    requires dir == [] || dir[|dir| - 1] == '/'
    requires '/' !in id && '.' !in id
    requires '/' !in e1 && '/' !in e2
    ensures DocId(dir + id + "." + e1) == DocId(dir + id + "." + e2) == id
  {
    assert dir + id + "." + e1 == dir + id + ("." + e1);
    assert dir + id + "." + e2 == dir + id + ("." + e2);
    DocIdUnique(dir + id + "." + e1, dir, id, "." + e1);
    DocIdUnique(dir + id + "." + e2, dir, id, "." + e2);
  }
}
