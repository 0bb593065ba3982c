/**
 * extract_symbol (src/parent.c): the symbol-dump tool prints one line per
 * dynamic symbol, the name as its last field; the parent keeps that field by
 * rewriting the line buffer in place, then scores it against the query.
 */
module Parent {
  import opened CTypes

  /** strlen: the index of the first terminator. */
  function Strlen(s: seq<char>): (n: nat)
    requires NUL in s
    ensures n < |s| && s[n] == NUL
    ensures forall k :: 0 <= k < n ==> s[k] != NUL
  {
    if s[0] == NUL then 0 else 1 + Strlen(s[1..])
  }

  /**
   * The backward scan from index len: it stops at the largest index in
   * [1, len] that holds a space, or at 0 when there is none. Index 0 itself
   * is never examined.
   */
  function SpaceScan(s: seq<char>, len: nat): (p: nat)
    requires len < |s|
    ensures p <= len
    ensures p == 0 || s[p] == ' '
    ensures forall k :: p < k <= len ==> s[k] != ' '
  {
    if len == 0 || s[len] == ' ' then len else SpaceScan(s, len - 1)
  }

  /** Where the symbol starts: one past the position the backward scan stops at. */
  function TokenStart(s: seq<char>): (start: nat)
    requires NUL in s
    ensures 1 <= start <= Strlen(s) + 1
  {
    SpaceScan(s, Strlen(s)) + 1
  }

  /** The first index at or after k holding '\n' or the terminator. */
  function TokenEnd(s: seq<char>, k: nat): (q: nat)
    requires NUL in s && k <= Strlen(s)
    ensures k <= q <= Strlen(s)
    ensures s[q] == NUL || s[q] == '\n'
    ensures forall m :: k <= m < q ==> s[m] != NUL && s[m] != '\n'
    decreases Strlen(s) - k
  {
    if s[k] == NUL || s[k] == '\n' then k else TokenEnd(s, k + 1)
  }

  /**
   * The symbol extract_symbol keeps: the characters after the last space at
   * index 1 or later, up to the first '\n' or terminator. A line whose
   * terminator is at index 0 is not a valid input: the scan would step past it.
   */
  function Token(s: seq<char>): seq<char>
    requires NUL in s && Strlen(s) >= 1
  {
    s[TokenStart(s)..TokenEnd(s, TokenStart(s))]
  }

  /** The whole buffer after extract_symbol: the token, a terminator, and the untouched rest. */
  function Extracted(s: seq<char>): seq<char>
    requires NUL in s && Strlen(s) >= 1
  {
    var t := Token(s);
    assert |t| < Strlen(s);
    t + [NUL] + s[|t| + 1..]
  }

  /**
   * extract_symbol on a buffer holding a non-empty C string: the scan walks
   * len down from strlen, then the copy moves str[len] to str[i] with len - i
   * fixed at TokenStart >= 1, so every character is read before its cell is
   * overwritten.
   */
  method ExtractSymbol(str: array<char>)
    requires NUL in str[..] && Strlen(str[..]) >= 1
    modifies str
    ensures str[..] == Extracted(old(str[..]))
  {
    ghost var s := str[..];
    var len := ScanBack(str, Strlen(str[..]));
    var i := 0;

    len := len + 1;
    ghost var start := len;
    ghost var q := TokenEnd(s, start);

    while str[len] != NUL && str[len] != '\n'
      invariant start <= len <= q && len == start + i
      invariant forall m :: 0 <= m < i ==> str[m] == s[start + m]
      invariant forall m :: i <= m < str.Length ==> str[m] == s[m]
      decreases q - len
    {
      str[i] := str[len];
      i := i + 1;
      len := len + 1;
    }
    str[i] := NUL;
    ExtractedAt(s, str[..], start, q);
  }

  /** The first loop of extract_symbol: walk len down from n to the last space at index 1 or later, or to 0. */
  method ScanBack(str: array<char>, n: nat) returns (len: nat)
    requires n < str.Length
    ensures len == SpaceScan(str[..], n)
  {
    len := n;
    while len > 0 && str[len] != ' '
      invariant 0 <= len <= n
      invariant SpaceScan(str[..], len) == SpaceScan(str[..], n)
    {
      len := len - 1;
    }
  }

  /**
   * A buffer of the same size holding the token (s[start..q]), a terminator
   * and then the rest of s is Extracted(s).
   */
  lemma ExtractedAt(s: seq<char>, r: seq<char>, start: nat, q: nat)
    requires NUL in s && Strlen(s) >= 1 && |r| == |s|
    requires start == TokenStart(s) && q == TokenEnd(s, start)
    requires forall m :: 0 <= m < q - start ==> r[m] == s[start + m]
    requires r[q - start] == NUL
    requires forall m :: q - start < m < |s| ==> r[m] == s[m]
    ensures r == Extracted(s)
  {
  }

  /** The token holds no space, no '\n' and no terminator. */
  lemma TokenHasNoSeparators(s: seq<char>)
    requires NUL in s && Strlen(s) >= 1
    ensures forall c :: c in Token(s) ==> c != ' ' && c != '\n' && c != NUL
  {
    var start, q := TokenStart(s), TokenEnd(s, TokenStart(s));
    forall c | c in Token(s)
      ensures c != ' ' && c != '\n' && c != NUL
    {
      var m :| 0 <= m < |Token(s)| && Token(s)[m] == c;
      assert s[start + m] == c;
    }
  }

  /** The scan's stop is the last space at index 1 or later, or 0 when there is none. */
  lemma TokenStartIsAfterLastSpace(s: seq<char>)
    requires NUL in s
    ensures TokenStart(s) == 1 <==> forall k :: 1 <= k < Strlen(s) ==> s[k] != ' '
    ensures TokenStart(s) > 1 ==>
      s[TokenStart(s) - 1] == ' ' && forall k :: TokenStart(s) <= k < Strlen(s) ==> s[k] != ' '
  {
  }

  /** Without a space past index 0 the token begins at index 1: the first character is dropped. */
  lemma NoSpaceDropsFirstChar(s: seq<char>)
    requires NUL in s && Strlen(s) >= 1
    requires forall k :: 1 <= k < Strlen(s) ==> s[k] != ' '
    ensures Token(s) == s[1..TokenEnd(s, 1)]
  {
    TokenStartIsAfterLastSpace(s);
  }

  /**
   * The buffer keeps its size, the new string is the token, strictly shorter
   * than the line, and the terminator sits right after it.
   */
  lemma ExtractedShape(s: seq<char>)
    requires NUL in s && Strlen(s) >= 1
    ensures |Extracted(s)| == |s|
    ensures Extracted(s)[|Token(s)|] == NUL
    ensures Strlen(Extracted(s)) == |Token(s)| < Strlen(s)
    ensures Extracted(s)[..|Token(s)|] == Token(s)
  {
    var e, t := Extracted(s), Token(s);
    TokenHasNoSeparators(s);
    assert forall k :: 0 <= k < |t| ==> e[k] == t[k] && t[k] in t;
    StrlenFirst(e, |t|);
  }

  /** The terminator is at n when it is there and nowhere before. */
  lemma StrlenFirst(s: seq<char>, n: nat)
    requires n < |s| && s[n] == NUL
    requires forall k :: 0 <= k < n ==> s[k] != NUL
    ensures Strlen(s) == n
  {
  }

  /**
   * Extracting again does not give the token back: the token holds no space,
   * so the second scan stops at 0 and drops its first character.
   */
  lemma ExtractTwice(s: seq<char>)
    requires NUL in s && Strlen(s) >= 1
    requires |Token(s)| >= 1
    ensures Token(Extracted(s)) == Token(s)[1..]
  {
    var e, t := Extracted(s), Token(s);
    ExtractedShape(s);
    TokenHasNoSeparators(s);
    assert forall k :: 1 <= k < Strlen(e) ==> e[k] == t[k] && t[k] in t;
    NoSpaceDropsFirstChar(e);
    TokenEndAt(e, 1, |t|);
    assert Token(e) == e[1..|t|];
  }

  /** The backward scan stops at p when p holds a space, or is 0, and no space lies after p up to len. */
  lemma SpaceScanAt(s: seq<char>, len: nat, p: nat)
    requires p <= len < |s| && (p == 0 || s[p] == ' ')
    requires forall k :: p < k <= len ==> s[k] != ' '
    ensures SpaceScan(s, len) == p
  {
  }

  /** A scan from k that meets no separator before the separator at q ends at q. */
  lemma TokenEndAt(s: seq<char>, k: nat, q: nat)
    requires NUL in s && k <= q <= Strlen(s) && (s[q] == NUL || s[q] == '\n')
    requires forall m :: k <= m < q ==> s[m] != NUL && s[m] != '\n'
    ensures TokenEnd(s, k) == q
  {
  }

  /** A line in the format of the symbol-dump tool: address, type letter, name. */
  lemma DumpLine(s: seq<char>)
    requires s == "0000000000001139 T main\n\0"
    ensures Token(s) == "main"
  {
    StrlenFirst(s, 24);
    SpaceScanAt(s, 24, 18);
    TokenEndAt(s, 19, 23);
  }

  /** A line holding one character and '\n': the scan stops at 0 and nothing is copied, so the token is empty. */
  lemma SingleCharLine(s: seq<char>)
    requires s == "a\n\0"
    ensures Token(s) == []
  {
    StrlenFirst(s, 2);
    SpaceScanAt(s, 2, 0);
    TokenEndAt(s, 1, 1);
  }
}
