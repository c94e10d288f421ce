/** The string primitives the query builder relies on: `String.Trim()`,
    `String.Split(' ')` (empty pieces kept) and `String.ToLower()`. */
module Text {

  /** `char.IsWhiteSpace` of .NET: the Unicode space separators, the line and
      paragraph separators, U+0009..U+000D and U+0085. */
  predicate IsWhiteSpace(c: char) {
    || c == ' '
    || ('\t' <= c <= '\r')
    || c == '\U{85}'
    || c == '\U{A0}'
    || c == '\U{1680}'
    || ('\U{2000}' <= c <= '\U{200A}')
    || c == '\U{2028}'
    || c == '\U{2029}'
    || c == '\U{202F}'
    || c == '\U{205F}'
    || c == '\U{3000}'
  }

  /** Number of occurrences of `c` in `s`. */
  function Count(s: string, c: char): nat {
    if |s| == 0 then 0 else (if s[0] == c then 1 else 0) + Count(s[1..], c)
  }

  lemma {:induction false} CountZero(s: string, c: char)
    ensures Count(s, c) == 0 <==> c !in s
  {
    if |s| > 0 {
      CountZero(s[1..], c);
      assert s == [s[0]] + s[1..];
    }
  }

  // ---------------------------------------------------------------------------
  // Trim, for any notion of white space

  /** The first index at or after `i` whose character is not white, or
      `|s|` when there is none. */
  function TrimStart(s: string, white: char -> bool, i: nat): (k: nat)
    requires i <= |s|
    ensures i <= k <= |s|
    ensures forall m :: i <= m < k ==> white(s[m])
    ensures k < |s| ==> !white(s[k])
    decreases |s| - i
  {
    if i < |s| && white(s[i]) then TrimStart(s, white, i + 1) else i
  }

  /** The end of `s[lo..j]` once its trailing white characters are
      dropped. */
  function TrimEnd(s: string, white: char -> bool, lo: nat, j: nat): (k: nat)
    requires lo <= j <= |s|
    ensures lo <= k <= j
    ensures forall m :: k <= m < j ==> white(s[m])
    ensures k > lo ==> !white(s[k - 1])
  {
    if j > lo && white(s[j - 1]) then TrimEnd(s, white, lo, j - 1) else j
  }

  /** `s[i..j]` is what remains of `s` once a white prefix `s[..i]` and a
      white suffix `s[j..]` are removed, and neither end of it is white. */
  predicate TrimBounds(s: string, white: char -> bool, i: int, j: int) {
    && 0 <= i <= j <= |s|
    && (forall k :: 0 <= k < i ==> white(s[k]))
    && (forall k :: j <= k < |s| ==> white(s[k]))
    && (i < j ==> !white(s[i]) && !white(s[j - 1]))
  }

  /** What trimming means, independent of how it is computed. */
  ghost predicate IsTrimOf(s: string, white: char -> bool, r: string) {
    exists i, j :: TrimBounds(s, white, i, j) && r == s[i..j]
  }

  /** Removes white characters from both ends. */
  function TrimBy(s: string, white: char -> bool): (r: string)
    ensures IsTrimOf(s, white, r)
  {
    var i := TrimStart(s, white, 0);
    var j := TrimEnd(s, white, i, |s|);
    assert TrimBounds(s, white, i, j);
    s[i..j]
  }

  /** Two ways of trimming the same string keep the same characters. */
  lemma TrimBoundsUnique(s: string, white: char -> bool, i: int, j: int, i': int, j': int)
    requires TrimBounds(s, white, i, j) && TrimBounds(s, white, i', j')
    ensures s[i..j] == s[i'..j']
  {
    if i < j && i' < j' {
      assert !white(s[i]) && !white(s[i']);
      assert !white(s[j - 1]) && !white(s[j' - 1]);
    } else if i < j || i' < j' {
      // one of the two says all of s is white, the other keeps a character
      // that is not
      assert false;
    }
  }

  /** There is only one way to trim a string, so `TrimBy` is the unique
      string that `IsTrimOf` describes. */
  lemma TrimUnique(s: string, white: char -> bool, r: string)
    requires IsTrimOf(s, white, r)
    ensures r == TrimBy(s, white)
  {
    var i, j :| TrimBounds(s, white, i, j) && r == s[i..j];
    var i', j' :| TrimBounds(s, white, i', j') && TrimBy(s, white) == s[i'..j'];
    TrimBoundsUnique(s, white, i, j, i', j');
  }

  /** Trimming twice changes nothing. */
  lemma TrimIdempotent(s: string, white: char -> bool)
    ensures TrimBy(TrimBy(s, white), white) == TrimBy(s, white)
  {
    var t := TrimBy(s, white);
    assert IsTrimOf(t, white, t) by {
      var i, j :| TrimBounds(s, white, i, j) && t == s[i..j];
      assert TrimBounds(t, white, 0, |t|) && t == t[0..|t|];
    }
    TrimUnique(t, white, t);
  }

  /** `String.Trim()`: removes `char.IsWhiteSpace` characters from both ends. */
  function Trim(s: string): (r: string)
    ensures IsTrimOf(s, IsWhiteSpace, r)
  {
    TrimBy(s, IsWhiteSpace)
  }

  // ---------------------------------------------------------------------------
  // Split and Join

  /** `String.Split(sep)`: the pieces between separators, empty pieces kept. */
  function Split(s: string, sep: char): (pieces: seq<string>)
    ensures |pieces| >= 1
  {
    if |s| == 0 then [""]
    else
      var rest := Split(s[1..], sep);
      if s[0] == sep then [""] + rest else [[s[0]] + rest[0]] + rest[1..]
  }

  /** `String.Join(sep, pieces)`. */
  function Join(pieces: seq<string>, sep: char): string
    requires |pieces| >= 1
  {
    if |pieces| == 1 then pieces[0] else pieces[0] + [sep] + Join(pieces[1..], sep)
  }

  /** No piece of a split contains the separator. */
  lemma {:induction false} SplitPiecesHaveNoSeparator(s: string, sep: char)
    ensures forall k :: 0 <= k < |Split(s, sep)| ==> sep !in Split(s, sep)[k]
  {
    if |s| > 0 {
      SplitPiecesHaveNoSeparator(s[1..], sep);
    }
  }

  /** A split has one piece more than there are separators. */
  lemma {:induction false} SplitCount(s: string, sep: char)
    ensures |Split(s, sep)| == Count(s, sep) + 1
  {
    if |s| > 0 {
      SplitCount(s[1..], sep);
    }
  }

  /** Joining the pieces with the separator gives back the string. */
  lemma {:induction false} JoinSplit(s: string, sep: char)
    ensures Join(Split(s, sep), sep) == s
  {
    if |s| > 0 {
      var rest := Split(s[1..], sep);
      JoinSplit(s[1..], sep);
      if s[0] == sep {
        assert Split(s, sep)[1..] == rest;
      } else if |rest| == 1 {
        assert s == [s[0]] + s[1..];
      } else {
        var p := Split(s, sep);
        assert p[1..] == rest[1..];
        assert Join(p, sep) == [s[0]] + rest[0] + [sep] + Join(rest[1..], sep);
        assert s == [s[0]] + s[1..];
      }
    }
  }

  /** Splitting a join of separator-free pieces gives back the pieces. */
  lemma {:induction false} SplitJoin(pieces: seq<string>, sep: char)
    requires |pieces| >= 1
    requires forall k :: 0 <= k < |pieces| ==> sep !in pieces[k]
    ensures Split(Join(pieces, sep), sep) == pieces
  {
    if |pieces| == 1 {
      SplitNoSeparator(pieces[0], sep);
    } else {
      var tail := Join(pieces[1..], sep);
      SplitJoin(pieces[1..], sep);
      SplitPrefix(pieces[0], tail, sep);
    }
  }

  /** A string without the separator splits into itself. */
  lemma {:induction false} SplitNoSeparator(s: string, sep: char)
    requires sep !in s
    ensures Split(s, sep) == [s]
  {
    if |s| > 0 {
      SplitNoSeparator(s[1..], sep);
      assert s == [s[0]] + s[1..];
    }
  }

  /** Splitting `p + [sep] + t` for a separator-free `p` yields `p` followed
      by the pieces of `t`. */
  lemma {:induction false} SplitPrefix(p: string, t: string, sep: char)
    requires sep !in p
    ensures Split(p + [sep] + t, sep) == [p] + Split(t, sep)
  {
    if |p| == 0 {
      assert p + [sep] + t == [sep] + t;
      assert ([sep] + t)[1..] == t;
    } else {
      SplitPrefix(p[1..], t, sep);
      var s := p + [sep] + t;
      assert s[0] == p[0];
      assert s[1..] == p[1..] + [sep] + t;
      assert [p[0]] + p[1..] == p;
    }
  }

  // ---------------------------------------------------------------------------
  // Lower case

  /** The culture-invariant lower-case mapping of .NET, for Basic Latin and the
      Latin-1 Supplement: `A`..`Z` and U+00C0..U+00DE except U+00D7 move down
      by 0x20; every other character is left alone. */
  function LowerChar(c: char): char {
    if 'A' <= c <= 'Z' || ('\U{C0}' <= c <= '\U{DE}' && c != '\U{D7}')
    then (c as int + 0x20) as char
    else c
  }

  /** `String.ToLower()`, character by character. */
  function Lower(s: string): (r: string)
    ensures |r| == |s|
  {
    seq(|s|, i requires 0 <= i < |s| => LowerChar(s[i]))
  }

  /** Lower-casing never creates, removes or moves a space, nor white space. */
  lemma LowerKeepsSpaces(s: string)
    ensures forall i :: 0 <= i < |s| ==> (Lower(s)[i] == ' ' <==> s[i] == ' ')
    ensures forall i :: 0 <= i < |s| ==> (IsWhiteSpace(Lower(s)[i]) <==> IsWhiteSpace(s[i]))
  {
  }
}
