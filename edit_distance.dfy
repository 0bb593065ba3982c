/**
 * The Levenshtein distance, written as the prefix recurrence that the
 * two-row algorithm of lev_string_dist evaluates row by row, with the
 * properties its users rely on (identity, symmetry, bounds, triangle
 * inequality) and the value the C code actually returns for a pair of
 * C strings.
 */
module EditDistance {
  import opened CTypes

  function Min(x: nat, y: nat): nat { if x <= y then x else y }

  function Min3(x: nat, y: nat, z: nat): nat { Min(x, Min(y, z)) }

  function Max(x: nat, y: nat): nat { if x >= y then x else y }

  /** Substitution cost: 0 for equal characters, 1 otherwise. */
  function Cost(c: char, d: char): nat { if c == d then 0 else 1 }

  /** Distance between the prefixes a[..i] and b[..j]: the first row and column count characters. */
  function PrefixDist(a: seq<char>, b: seq<char>, i: nat, j: nat): nat
    requires i <= |a| && j <= |b|
    decreases i + j, 1
  {
    if i == 0 then j
    else if j == 0 then i
    else CellDist(a, b, i, j)
  }

  /**
   * A cell off the first row and column: the cheapest of substituting the last
   * characters, deleting the last of a[..i] and inserting the last of b[..j].
   */
  function CellDist(a: seq<char>, b: seq<char>, i: nat, j: nat): nat
    requires 0 < i <= |a| && 0 < j <= |b|
    decreases i + j, 0
  {
    Min3(PrefixDist(a, b, i - 1, j - 1) + Cost(a[i - 1], b[j - 1]),
         PrefixDist(a, b, i - 1, j) + 1,
         PrefixDist(a, b, i, j - 1) + 1)
  }

  /** Minimum number of single-character insertions, deletions and substitutions turning a into b. */
  function EditDist(a: seq<char>, b: seq<char>): nat
  {
    PrefixDist(a, b, |a|, |b|)
  }

  /** The prefix distance only depends on the characters inside the prefixes. */
  lemma {:induction false} PrefixDistAgree(a: seq<char>, b: seq<char>, a2: seq<char>, b2: seq<char>, i: nat, j: nat)
    requires i <= |a| && i <= |a2| && j <= |b| && j <= |b2|
    requires forall k :: 0 <= k < i ==> a[k] == a2[k]
    requires forall k :: 0 <= k < j ==> b[k] == b2[k]
    ensures PrefixDist(a, b, i, j) == PrefixDist(a2, b2, i, j)
    decreases i + j
  {
    if i > 0 && j > 0 {
      PrefixDistAgree(a, b, a2, b2, i - 1, j - 1);
      PrefixDistAgree(a, b, a2, b2, i - 1, j);
      PrefixDistAgree(a, b, a2, b2, i, j - 1);
    }
  }

  /** A cell of the table is the edit distance of the two prefixes it stands for. */
  lemma PrefixDistIsEditDist(a: seq<char>, b: seq<char>, i: nat, j: nat)
    requires i <= |a| && j <= |b|
    ensures PrefixDist(a, b, i, j) == EditDist(a[..i], b[..j])
  {
    PrefixDistAgree(a, b, a[..i], b[..j], i, j);
  }

  /** Base cases: distance to and from the empty string is the other string's length. */
  lemma EditDistEmpty(a: seq<char>)
    ensures EditDist(a, []) == |a| && EditDist([], a) == |a|
  {
  }

  /** The diagonal of a string against itself is 0. */
  lemma {:induction false} PrefixDistSelf(a: seq<char>, i: nat)
    requires i <= |a|
    ensures PrefixDist(a, a, i, i) == 0
  {
    if i > 0 {
      PrefixDistSelf(a, i - 1);
    }
  }

  /** A cell of distance 0 stands for two equal prefixes of the same length. */
  lemma {:induction false} PrefixDistZero(a: seq<char>, b: seq<char>, i: nat, j: nat)
    requires i <= |a| && j <= |b|
    requires PrefixDist(a, b, i, j) == 0
    ensures i == j && forall k :: 0 <= k < i ==> a[k] == b[k]
    decreases i + j
  {
    if i > 0 && j > 0 {
      PrefixDistZero(a, b, i - 1, j - 1);
    }
  }

  /** Distance zero exactly when the strings are equal. */
  lemma EditDistZeroIff(a: seq<char>, b: seq<char>)
    ensures EditDist(a, b) == 0 <==> a == b
  {
    if EditDist(a, b) == 0 {
      PrefixDistZero(a, b, |a|, |b|);
      assert a == b;
    }
    if a == b {
      PrefixDistSelf(a, |a|);
    }
  }

  /** Swapping the strings transposes the table. */
  lemma {:induction false} PrefixDistSymmetric(a: seq<char>, b: seq<char>, i: nat, j: nat)
    requires i <= |a| && j <= |b|
    ensures PrefixDist(a, b, i, j) == PrefixDist(b, a, j, i)
    decreases i + j
  {
    if i > 0 && j > 0 {
      PrefixDistSymmetric(a, b, i - 1, j - 1);
      PrefixDistSymmetric(a, b, i - 1, j);
      PrefixDistSymmetric(a, b, i, j - 1);
    }
  }

  /** The distance is symmetric. */
  lemma EditDistSymmetric(a: seq<char>, b: seq<char>)
    ensures EditDist(a, b) == EditDist(b, a)
  {
    PrefixDistSymmetric(a, b, |a|, |b|);
  }

  /** No cell exceeds the longer prefix: each cell is at most max(i, j). */
  lemma {:induction false} PrefixDistUpper(a: seq<char>, b: seq<char>, i: nat, j: nat)
    requires i <= |a| && j <= |b|
    ensures PrefixDist(a, b, i, j) <= Max(i, j)
    decreases i + j
  {
    if i > 0 && j > 0 {
      PrefixDistUpper(a, b, i - 1, j - 1);
    }
  }

  /** Each cell is at least the difference of the prefix lengths. */
  lemma {:induction false} PrefixDistLower(a: seq<char>, b: seq<char>, i: nat, j: nat)
    requires i <= |a| && j <= |b|
    ensures PrefixDist(a, b, i, j) >= i - j && PrefixDist(a, b, i, j) >= j - i
    decreases i + j
  {
    if i > 0 && j > 0 {
      PrefixDistLower(a, b, i - 1, j - 1);
      PrefixDistLower(a, b, i - 1, j);
      PrefixDistLower(a, b, i, j - 1);
    }
  }

  /** The distance lies between the length difference and the longer length. */
  lemma EditDistBounds(a: seq<char>, b: seq<char>)
    ensures EditDist(a, b) <= Max(|a|, |b|)
    ensures EditDist(a, b) >= |a| - |b| && EditDist(a, b) >= |b| - |a|
  {
    PrefixDistUpper(a, b, |a|, |b|);
    PrefixDistLower(a, b, |a|, |b|);
  }

  /** A value that is one of the three candidates of a cell and at most each of them is that cell. */
  lemma PrefixDistNextCell(a: seq<char>, b: seq<char>, i: nat, j: nat, substitution: int, deletion: int, insertion: int, r: int)
    requires i < |a| && j < |b|
    requires substitution == PrefixDist(a, b, i, j) + Cost(a[i], b[j])
    requires deletion == PrefixDist(a, b, i, j + 1) + 1
    requires insertion == PrefixDist(a, b, i + 1, j) + 1
    requires r == substitution || r == deletion || r == insertion
    requires r <= substitution && r <= deletion && r <= insertion
    ensures r == PrefixDist(a, b, i + 1, j + 1)
  {
  }

  /** A cell is at most each of its three candidates. */
  lemma PrefixDistCellBounds(a: seq<char>, b: seq<char>, i: nat, j: nat)
    requires 0 < i <= |a| && 0 < j <= |b|
    ensures PrefixDist(a, b, i, j) <= PrefixDist(a, b, i - 1, j - 1) + Cost(a[i - 1], b[j - 1])
    ensures PrefixDist(a, b, i, j) <= PrefixDist(a, b, i - 1, j) + 1
    ensures PrefixDist(a, b, i, j) <= PrefixDist(a, b, i, j - 1) + 1
  {
  }

  /** A cell equals one of its three candidates. */
  lemma PrefixDistCellChoice(a: seq<char>, b: seq<char>, i: nat, j: nat)
    requires 0 < i <= |a| && 0 < j <= |b|
    ensures PrefixDist(a, b, i, j) == PrefixDist(a, b, i - 1, j - 1) + Cost(a[i - 1], b[j - 1])
         || PrefixDist(a, b, i, j) == PrefixDist(a, b, i - 1, j) + 1
         || PrefixDist(a, b, i, j) == PrefixDist(a, b, i, j - 1) + 1
  {
  }

  lemma {:induction false} PrefixDistTriangle(a: seq<char>, b: seq<char>, c: seq<char>, i: nat, j: nat, k: nat)
    requires i <= |a| && j <= |b| && k <= |c|
    ensures PrefixDist(a, c, i, k) <= PrefixDist(a, b, i, j) + PrefixDist(b, c, j, k)
    decreases i + j + k, 3
  {
    if i == 0 {
      PrefixDistLower(b, c, j, k);
    } else if j == 0 {
      PrefixDistUpper(a, c, i, k);
    } else if k == 0 {
      PrefixDistLower(a, b, i, j);
    } else {
      PrefixDistTriangleStep(a, b, c, i, j, k);
    }
  }

  /**
   * The inductive step of the triangle inequality on non-empty prefixes: split
   * on the candidates that give a[..i] to b[..j] and b[..j] to c[..k].
   */
  lemma {:induction false} PrefixDistTriangleStep(a: seq<char>, b: seq<char>, c: seq<char>, i: nat, j: nat, k: nat)
    requires 0 < i <= |a| && 0 < j <= |b| && 0 < k <= |c|
    ensures PrefixDist(a, c, i, k) <= PrefixDist(a, b, i, j) + PrefixDist(b, c, j, k)
    decreases i + j + k, 2
  {
    PrefixDistCellChoice(a, b, i, j);
    PrefixDistCellChoice(b, c, j, k);
    if PrefixDist(a, b, i, j) == PrefixDist(a, b, i - 1, j) + 1 {
      // delete the last character of a[..i] first
      PrefixDistCellBounds(a, c, i, k);
      PrefixDistTriangle(a, b, c, i - 1, j, k);
    } else if PrefixDist(b, c, j, k) == PrefixDist(b, c, j, k - 1) + 1 {
      // insert the last character of c[..k] last
      PrefixDistCellBounds(a, c, i, k);
      PrefixDistTriangle(a, b, c, i, j, k - 1);
    } else {
      PrefixDistTriangleMiddle(a, b, c, i, j, k);
    }
  }

  /**
   * The remaining cases of the step: a[..i] reaches b[..j] by an insertion or a
   * substitution last, and b[..j] reaches c[..k] by a deletion or a substitution.
   */
  lemma {:induction false} PrefixDistTriangleMiddle(a: seq<char>, b: seq<char>, c: seq<char>, i: nat, j: nat, k: nat)
    requires 0 < i <= |a| && 0 < j <= |b| && 0 < k <= |c|
    requires PrefixDist(a, b, i, j) == PrefixDist(a, b, i, j - 1) + 1
          || PrefixDist(a, b, i, j) == PrefixDist(a, b, i - 1, j - 1) + Cost(a[i - 1], b[j - 1])
    requires PrefixDist(b, c, j, k) == PrefixDist(b, c, j - 1, k) + 1
          || PrefixDist(b, c, j, k) == PrefixDist(b, c, j - 1, k - 1) + Cost(b[j - 1], c[k - 1])
    ensures PrefixDist(a, c, i, k) <= PrefixDist(a, b, i, j) + PrefixDist(b, c, j, k)
    decreases i + j + k, 1
  {
    if PrefixDist(a, b, i, j) == PrefixDist(a, b, i, j - 1) + 1 {
      // the last character of b[..j] is inserted: drop it from the middle string
      if PrefixDist(b, c, j, k) == PrefixDist(b, c, j - 1, k) + 1 {
        PrefixDistTriangle(a, b, c, i, j - 1, k);
      } else {
        PrefixDistCellBounds(a, c, i, k);
        PrefixDistTriangle(a, b, c, i, j - 1, k - 1);
      }
    } else {
      PrefixDistTriangleSubstitution(a, b, c, i, j, k);
    }
  }

  /** The cases where a[..i] reaches b[..j] by a substitution of the last characters. */
  lemma {:induction false} PrefixDistTriangleSubstitution(a: seq<char>, b: seq<char>, c: seq<char>, i: nat, j: nat, k: nat)
    requires 0 < i <= |a| && 0 < j <= |b| && 0 < k <= |c|
    requires PrefixDist(a, b, i, j) == PrefixDist(a, b, i - 1, j - 1) + Cost(a[i - 1], b[j - 1])
    requires PrefixDist(b, c, j, k) == PrefixDist(b, c, j - 1, k) + 1
          || PrefixDist(b, c, j, k) == PrefixDist(b, c, j - 1, k - 1) + Cost(b[j - 1], c[k - 1])
    ensures PrefixDist(a, c, i, k) <= PrefixDist(a, b, i, j) + PrefixDist(b, c, j, k)
    decreases i + j + k, 0
  {
    PrefixDistCellBounds(a, c, i, k);
    if PrefixDist(b, c, j, k) == PrefixDist(b, c, j - 1, k) + 1 {
      PrefixDistTriangle(a, b, c, i - 1, j - 1, k);
    } else {
      PrefixDistTriangle(a, b, c, i - 1, j - 1, k - 1);
    }
  }

  /** The distance satisfies the triangle inequality. */
  lemma EditDistTriangle(a: seq<char>, b: seq<char>, c: seq<char>)
    ensures EditDist(a, c) <= EditDist(a, b) + EditDist(b, c)
  {
    PrefixDistTriangle(a, b, c, |a|, |b|, |c|);
  }

  /**
   * The reads of lev_string_dist stay inside both C strings (terminators
   * included): either the row loop does not run, because one string is
   * empty, or the column index, which runs up to the longer length, reaches
   * at most the terminator of s2.
   */
  predicate ReadsInBounds(s1: seq<char>, s2: seq<char>)
  {
    |s1| == 0 || |s2| == 0 || |s1| <= |s2| + 1
  }

  /**
   * The value lev_string_dist returns: rows walk the first min(|s1|, |s2|)
   * characters of s1, columns the first max(|s1|, |s2|) characters of the
   * buffer of s2, its terminator included.
   */
  function TwoRowResult(s1: seq<char>, s2: seq<char>): (r: nat)
    requires ReadsInBounds(s1, s2)
    ensures r <= Max(|s1|, |s2|)
  {
    var maxSize, minSize := Max(|s1|, |s2|), if |s1| < |s2| then |s1| else |s2|;
    if minSize == 0 then maxSize
    else
      PrefixDistUpper(s1, s2 + [NUL], minSize, maxSize);
      PrefixDist(s1, s2 + [NUL], minSize, maxSize)
  }

  /** When s1 is not the longer string, or s2 is empty, the code returns the edit distance. */
  lemma TwoRowResultIsEditDist(s1: seq<char>, s2: seq<char>)
    requires |s1| <= |s2| || |s2| == 0
    ensures TwoRowResult(s1, s2) == EditDist(s1, s2)
  {
    if |s1| > 0 && |s2| > 0 {
      PrefixDistAgree(s1, s2 + [NUL], s1, s2, |s1|, |s2|);
    }
  }

  /** The table of ("bob", "bib"): one substitution. */
  lemma BobBib(a: seq<char>, b: seq<char>)
    requires a == "bob" && b == "bib"
    ensures PrefixDist(a, b, 3, 3) == 1
  {
    assert PrefixDist(a, b, 1, 1) == 0;
    assert PrefixDist(a, b, 1, 2) == 1;
    assert PrefixDist(a, b, 1, 3) == 2;
    assert PrefixDist(a, b, 2, 1) == 1;
    assert PrefixDist(a, b, 2, 2) == 1;
    assert PrefixDist(a, b, 2, 3) == 2;
    assert PrefixDist(a, b, 3, 1) == 2;
    assert PrefixDist(a, b, 3, 2) == 2;
  }

  /** The table of ("test", "test") ends in 0, from its zero diagonal. */
  lemma TestTest(a: seq<char>)
    requires a == "test"
    ensures PrefixDist(a, a, 4, 4) == 0
  {
    PrefixDistSelf(a, 4);
  }

  /** The table lev_string_dist fills for ("chiens", "niche"): the first five characters of "chiens" against "niche" and its terminator. */
  lemma ChiensNicheCodeTable(a: seq<char>, b: seq<char>)
    requires a == "chiens" && b == "niche\0"
    ensures PrefixDist(a, b, 5, 6) == 4
  {
    assert PrefixDist(a, b, 1, 1) == 1;
    assert PrefixDist(a, b, 1, 2) == 2;
    assert PrefixDist(a, b, 1, 3) == 2;
    assert PrefixDist(a, b, 1, 4) == 3;
    assert PrefixDist(a, b, 1, 5) == 4;
    assert PrefixDist(a, b, 1, 6) == 5;
    assert PrefixDist(a, b, 2, 1) == 2;
    assert PrefixDist(a, b, 2, 2) == 2;
    assert PrefixDist(a, b, 2, 3) == 3;
    assert PrefixDist(a, b, 2, 4) == 2;
    assert PrefixDist(a, b, 2, 5) == 3;
    assert PrefixDist(a, b, 2, 6) == 4;
    assert PrefixDist(a, b, 3, 1) == 3;
    assert PrefixDist(a, b, 3, 2) == 2;
    assert PrefixDist(a, b, 3, 3) == 3;
    assert PrefixDist(a, b, 3, 4) == 3;
    assert PrefixDist(a, b, 3, 5) == 3;
    assert PrefixDist(a, b, 3, 6) == 4;
    assert PrefixDist(a, b, 4, 1) == 4;
    assert PrefixDist(a, b, 4, 2) == 3;
    assert PrefixDist(a, b, 4, 3) == 3;
    assert PrefixDist(a, b, 4, 4) == 4;
    assert PrefixDist(a, b, 4, 5) == 3;
    assert PrefixDist(a, b, 4, 6) == 4;
    assert PrefixDist(a, b, 5, 1) == 4;
    assert PrefixDist(a, b, 5, 2) == 4;
    assert PrefixDist(a, b, 5, 3) == 4;
    assert PrefixDist(a, b, 5, 4) == 4;
    assert PrefixDist(a, b, 5, 5) == 4;
  }

  /** The table of ("chiens", "niche"), whose Levenshtein distance is 5. */
  lemma ChiensNiche(a: seq<char>, b: seq<char>)
    requires a == "chiens" && b == "niche"
    ensures PrefixDist(a, b, 6, 5) == 5
  {
    assert PrefixDist(a, b, 1, 1) == 1;
    assert PrefixDist(a, b, 1, 2) == 2;
    assert PrefixDist(a, b, 1, 3) == 2;
    assert PrefixDist(a, b, 1, 4) == 3;
    assert PrefixDist(a, b, 1, 5) == 4;
    assert PrefixDist(a, b, 2, 1) == 2;
    assert PrefixDist(a, b, 2, 2) == 2;
    assert PrefixDist(a, b, 2, 3) == 3;
    assert PrefixDist(a, b, 2, 4) == 2;
    assert PrefixDist(a, b, 2, 5) == 3;
    assert PrefixDist(a, b, 3, 1) == 3;
    assert PrefixDist(a, b, 3, 2) == 2;
    assert PrefixDist(a, b, 3, 3) == 3;
    assert PrefixDist(a, b, 3, 4) == 3;
    assert PrefixDist(a, b, 3, 5) == 3;
    assert PrefixDist(a, b, 4, 1) == 4;
    assert PrefixDist(a, b, 4, 2) == 3;
    assert PrefixDist(a, b, 4, 3) == 3;
    assert PrefixDist(a, b, 4, 4) == 4;
    assert PrefixDist(a, b, 4, 5) == 3;
    assert PrefixDist(a, b, 5, 1) == 4;
    assert PrefixDist(a, b, 5, 2) == 4;
    assert PrefixDist(a, b, 5, 3) == 4;
    assert PrefixDist(a, b, 5, 4) == 4;
    assert PrefixDist(a, b, 5, 5) == 4;
    assert PrefixDist(a, b, 6, 1) == 5;
    assert PrefixDist(a, b, 6, 2) == 5;
    assert PrefixDist(a, b, 6, 3) == 5;
    assert PrefixDist(a, b, 6, 4) == 5;
  }

  /**
   * When s1 is one character longer than a non-empty s2, the code returns the
   * distance between s1 without its last character and s2 followed by its
   * terminator, not the distance between s1 and s2.
   */
  lemma TwoRowResultOneLonger(s1: seq<char>, s2: seq<char>)
    requires |s1| == |s2| + 1 && |s2| > 0
    ensures ReadsInBounds(s1, s2)
    ensures TwoRowResult(s1, s2) == EditDist(s1[..|s2|], s2 + [NUL])
  {
    PrefixDistIsEditDist(s1, s2 + [NUL], |s2|, |s2| + 1);
    assert (s2 + [NUL])[..|s2| + 1] == s2 + [NUL];
  }

  /** The smallest pair the one-longer case gets wrong: ("ba", "a") yields 2 instead of 1. */
  lemma BaAAsWritten()
    ensures TwoRowResult("ba", "a") == 2
    ensures EditDist("ba", "a") == 1
  {
    var a, b := "ba", "a";
    assert PrefixDist(a, b + [NUL], 1, 1) == 1;
    assert PrefixDist(a, b, 1, 1) == 1;
  }

  /** The vectors of the test program whose reads stay in bounds: the code returns the edit distance. */
  lemma TestVectors()
    ensures TwoRowResult("bob", "bib") == EditDist("bob", "bib") == 1
    ensures TwoRowResult("test", "test") == EditDist("test", "test") == 0
    ensures TwoRowResult("", "ok") == EditDist("", "ok") == 2
    ensures TwoRowResult("ok", "") == EditDist("ok", "") == 2
    ensures TwoRowResult("", "") == EditDist("", "") == 0
  {
    BobBib("bob", "bib");
    TwoRowResultIsEditDist("bob", "bib");
    TestTest("test");
    TwoRowResultIsEditDist("test", "test");
  }

  /**
   * With |s1| == |s2| + 1 every read is in bounds, yet the rows stop one
   * character of s1 short and the columns compare against s2's terminator:
   * ("chiens", "niche") yields 4, while the edit distance is 5.
   */
  lemma ChiensNicheAsWritten()
    ensures ReadsInBounds("chiens", "niche")
    ensures TwoRowResult("chiens", "niche") == 4
    ensures EditDist("chiens", "niche") == 5
  {
    ChiensNicheCodeTable("chiens", "niche" + [NUL]);
    ChiensNiche("chiens", "niche");
  }
}
