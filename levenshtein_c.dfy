/**
 * The signed copy of the edit-distance engine (src/levenshtein.c): two rows
 * of C `int`, rolled over the characters of s1 and swapped after each row.
 */
module LevenshteinC {
  import opened EditDistance
  import opened CTypes

  /** lev_minimum: the cheapest of the three operation costs. */
  function LevMinimum(substitution: Int32, deletion: Int32, insertion: Int32): (r: Int32)
    ensures r == substitution || r == deletion || r == insertion
    ensures r <= substitution && r <= deletion && r <= insertion
  {
    if substitution <= deletion && substitution <= insertion then substitution
    else if deletion <= insertion && deletion <= substitution then deletion
    else insertion
  }

  /**
   * lev_string_dist. The C strings are the sequences s1 and s2 read through
   * their terminators; the reads stay inside them (ReadsInBounds), and the
   * strings are short enough that `max_size + 1` fits in an `int`, so no
   * signed overflow occurs. The result is TwoRowResult, which is the edit
   * distance when |s1| <= |s2| or s2 is empty (TwoRowResultIsEditDist).
   */
  method LevStringDist(s1: seq<char>, s2: seq<char>) returns (r: Int32)
    requires CString(s1) && CString(s2)
    requires ReadsInBounds(s1, s2)
    requires Max(|s1|, |s2|) < INT_MAX
    ensures r as int == TwoRowResult(s1, s2)
    ensures (|s1| <= |s2| || |s2| == 0) ==> r as int == EditDist(s1, s2)
  {
    var maxSize := if |s1| > |s2| then |s1| else |s2|;
    var minSize := if |s1| < |s2| then |s1| else |s2|;
    // s2 as the C string buffer, terminator included
    var s2z := s2 + [NUL];
    var line1 := new Int32[maxSize + 1];
    var line2 := new Int32[maxSize + 1];

    var k := 0;
    while k < maxSize + 1
      invariant 0 <= k <= maxSize + 1
      invariant forall m :: 0 <= m < k ==> line1[m] as int == m && line2[m] == 0
    {
      line1[k] := k as Int32;
      line2[k] := 0;
      k := k + 1;
    }

    var i := 0;
    while i < minSize
      invariant 0 <= i <= minSize
      invariant fresh(line1) && fresh(line2) && line1 != line2
      invariant line1.Length == maxSize + 1 && line2.Length == maxSize + 1
      invariant forall m :: 0 <= m <= maxSize ==> 0 <= line1[m] as int <= maxSize
      // after i rows, line1 holds row i of the table of s1 against s2z
      invariant forall m :: 0 <= m <= maxSize ==>
        line1[m] as int == if i == 0 then m else PrefixDist(s1, s2z, i, m)
    {
      FillRow(s1, s2z, i, maxSize, line1, line2);
      line1, line2 := line2, line1;
      i := i + 1;
    }

    r := line1[maxSize];
    if |s1| <= |s2| || |s2| == 0 {
      TwoRowResultIsEditDist(s1, s2);
    }
  }

  /**
   * The inner loop of lev_string_dist: from row i of the table in line1, fill
   * line2 with row i + 1, starting with line2[0] = i + 1. Every cell stays at
   * most maxSize, so each `+ 1` fits in an `int`.
   */
  method FillRow(s1: seq<char>, s2z: seq<char>, i: nat, maxSize: nat, line1: array<Int32>, line2: array<Int32>)
    requires i < |s1| && maxSize <= |s2z| && i < maxSize < INT_MAX
    requires line1 != line2 && line1.Length == maxSize + 1 && line2.Length == maxSize + 1
    requires forall m :: 0 <= m <= maxSize ==> line1[m] as int == PrefixDist(s1, s2z, i, m)
    requires forall m :: 0 <= m <= maxSize ==> 0 <= line1[m] as int <= maxSize
    modifies line2
    ensures forall m :: 0 <= m <= maxSize ==> line2[m] as int == PrefixDist(s1, s2z, i + 1, m)
    ensures forall m :: 0 <= m <= maxSize ==> 0 <= line2[m] as int <= maxSize
  {
    line2[0] := (i + 1) as Int32;
    var j := 0;
    while j < maxSize
      invariant 0 <= j <= maxSize
      // line2 holds row i + 1 up to column j
      invariant forall m :: 0 <= m <= j ==> line2[m] as int == PrefixDist(s1, s2z, i + 1, m)
      invariant forall m :: 0 <= m <= j ==> 0 <= line2[m] as int <= maxSize
    {
      PrefixDistUpper(s1, s2z, i + 1, j + 1);
      var deletionCost := line1[j + 1] + 1;
      var insertionCost := line2[j] + 1;
      var substitutionCost;
      if s1[i] == s2z[j] {
        substitutionCost := line1[j];
      } else {
        substitutionCost := line1[j] + 1;
      }
      line2[j + 1] := LevMinimum(substitutionCost, deletionCost, insertionCost);
      PrefixDistNextCell(s1, s2z, i, j, substitutionCost as int, deletionCost as int, insertionCost as int, line2[j + 1] as int);
      j := j + 1;
    }
  }
}
