/** String helpers of the JavaScript runtime that the book store relies on:
    `trim`, `split(',')`, `toLowerCase` (ASCII only) and `includes`. */
module Text {

  type String = seq<char>

  /** The characters `String.prototype.trim` removes: ECMAScript WhiteSpace
      (tab, vertical tab, form feed, space, no-break space, byte order mark and
      the Zs category) and LineTerminator (LF, CR, LS, PS). */
  predicate IsWhitespace(c: char) {
    var n := c as int;
    n == 0x09 || n == 0x0A || n == 0x0B || n == 0x0C || n == 0x0D || n == 0x20 ||
    n == 0xA0 || n == 0x1680 || (0x2000 <= n <= 0x200A) || n == 0x2028 ||
    n == 0x2029 || n == 0x202F || n == 0x205F || n == 0x3000 || n == 0xFEFF
  }

  predicate AllWhitespace(s: String) {
    forall i :: 0 <= i < |s| ==> IsWhitespace(s[i])
  }

  /** How many whitespace characters s starts with. */
  function LeadingBlanks(s: String): (n: nat)
    ensures n <= |s|
  {
    if s != [] && IsWhitespace(s[0]) then 1 + LeadingBlanks(s[1..]) else 0
  }

  /** How many whitespace characters s ends with. */
  function TrailingBlanks(s: String): (n: nat)
    ensures n <= |s|
  {
    if s != [] && IsWhitespace(s[|s| - 1]) then 1 + TrailingBlanks(s[..|s| - 1]) else 0
  }

  /** The leading run is all whitespace and is followed by a non-blank, if anything. */
  lemma {:induction false} LeadingBlanksSpec(s: String)
    ensures AllWhitespace(s[..LeadingBlanks(s)])
    ensures LeadingBlanks(s) < |s| ==> !IsWhitespace(s[LeadingBlanks(s)])
  {
    if s != [] && IsWhitespace(s[0]) {
      LeadingBlanksSpec(s[1..]);
      var n := LeadingBlanks(s);
      forall i | 0 <= i < n ensures IsWhitespace(s[..n][i]) {
        if i > 0 { assert s[..n][i] == s[1..][..n - 1][i - 1]; }
      }
    }
  }

  /** The trailing run is all whitespace and is preceded by a non-blank, if anything. */
  lemma {:induction false} TrailingBlanksSpec(s: String)
    ensures AllWhitespace(s[|s| - TrailingBlanks(s)..])
    ensures TrailingBlanks(s) < |s| ==> !IsWhitespace(s[|s| - 1 - TrailingBlanks(s)])
  {
    if s != [] && IsWhitespace(s[|s| - 1]) {
      var p := s[..|s| - 1];
      TrailingBlanksSpec(p);
      var n := TrailingBlanks(s);
      var w := s[|s| - n..];
      var v := p[|p| - (n - 1)..];
      forall i | 0 <= i < |w| ensures IsWhitespace(w[i]) {
        if i < n - 1 { assert w[i] == v[i]; }
      }
    }
  }

  /** `s.trim()`: drop the leading, then the trailing whitespace. */
  function Trim(s: String): (r: String)
    ensures |r| <= |s|
  {
    var t := s[LeadingBlanks(s)..];
    t[..|t| - TrailingBlanks(t)]
  }

  /** s[i..j] is r, with only whitespace before i and after j. */
  predicate TrimmedAt(s: String, r: String, i: int, j: int) {
    0 <= i <= j <= |s| && r == s[i..j] && AllWhitespace(s[..i]) && AllWhitespace(s[j..])
  }

  /** What trim removes is whitespace at both ends (s is whitespace, then the
      result, then whitespace), and the result neither starts nor ends with whitespace. */
  lemma TrimShape(s: String)
    ensures exists i, j :: TrimmedAt(s, Trim(s), i, j)
    ensures Trim(s) != [] ==> !IsWhitespace(Trim(s)[0]) && !IsWhitespace(Trim(s)[|Trim(s)| - 1])
  {
    var i := LeadingBlanks(s);
    var t := s[i..];
    var m := TrailingBlanks(t);
    var r := t[..|t| - m];
    assert Trim(s) == r;
    LeadingBlanksSpec(s);
    TrailingBlanksSpec(t);
    assert r == s[i..i + |r|];
    assert s[i + |r|..] == t[|t| - m..];
    assert TrimmedAt(s, r, i, i + |r|);
    if r != [] {
      assert r[0] == s[i];
      assert r[|r| - 1] == t[|t| - 1 - m];
    }
  }

  /** trim only removes characters: everything in the result comes from s. */
  lemma TrimKeeps(s: String)
    ensures forall c :: c in Trim(s) ==> c in s
  {
    var r := Trim(s);
    TrimShape(s);
    var i, j :| TrimmedAt(s, r, i, j);
    forall c | c in r ensures c in s {
      var k :| 0 <= k < |r| && r[k] == c;
      assert s[i + k] == c;
    }
  }

  /** trim gives the empty string exactly when s is all whitespace. */
  lemma TrimEmptyIff(s: String)
    ensures Trim(s) == [] <==> AllWhitespace(s)
  {
    var r := Trim(s);
    TrimShape(s);
    var i, j :| TrimmedAt(s, r, i, j);
    if r == [] {
      assert s == s[..i] + s[j..];
      forall k | 0 <= k < |s| ensures IsWhitespace(s[k]) {
        if k < i { assert s[k] == s[..i][k]; } else { assert s[k] == s[j..][k - j]; }
      }
    } else {
      assert r[0] == s[i];
    }
  }

  /** Trimming twice is trimming once. */
  lemma TrimIdempotent(s: String)
    ensures Trim(Trim(s)) == Trim(s)
  {
    var r := Trim(s);
    TrimShape(s);
    assert LeadingBlanks(r) == 0;
    assert r[0..] == r;
    assert TrailingBlanks(r) == 0;
    assert r[..|r|] == r;
  }

  /** Number of occurrences of c in s. */
  function Count(s: String, c: char): nat {
    if s == [] then 0 else (if s[0] == c then 1 else 0) + Count(s[1..], c)
  }

  /** `s.split(sep)` for a one-character separator: always at least one piece
      (`"".split(",")` is `[""]`), one more piece than separators, and no piece
      contains the separator. */
  function Split(s: String, sep: char): (r: seq<String>)
    ensures |r| == Count(s, sep) + 1
    ensures forall k :: 0 <= k < |r| ==> sep !in r[k]
  {
    if s == [] then [[]]
    else
      var rest := Split(s[1..], sep);
      if s[0] == sep then [[]] + rest
      else [[s[0]] + rest[0]] + rest[1..]
  }

  /** `pieces.join(sep)`. */
  function Join(pieces: seq<String>, sep: char): String {
    if pieces == [] then []
    else if |pieces| == 1 then pieces[0]
    else pieces[0] + [sep] + Join(pieces[1..], sep)
  }

  /** Joining the pieces back with the separator gives the original string. */
  lemma {:induction false} JoinSplit(s: String, sep: char)
    ensures Join(Split(s, sep), sep) == s
  {
    if s != [] {
      JoinSplit(s[1..], sep);
      var rest := Split(s[1..], sep);
      if s[0] == sep {
        assert Join([[]] + rest, sep) == [] + [sep] + Join(rest, sep);
      } else if |rest| == 1 {
        assert Split(s, sep) == [[s[0]] + rest[0]];
      } else {
        var r := Split(s, sep);
        assert r[1..] == rest[1..];
        assert Join(rest, sep) == rest[0] + [sep] + Join(rest[1..], sep);
      }
    }
  }

  lemma {:induction false} SplitNoSep(p: String, sep: char)
    requires sep !in p
    ensures Split(p, sep) == [p]
  {
    if p != [] {
      SplitNoSep(p[1..], sep);
      assert [p[0]] + p[1..] == p;
    }
  }

  lemma {:induction false} SplitPieceThen(p: String, sep: char, t: String)
    requires sep !in p
    ensures Split(p + [sep] + t, sep) == [p] + Split(t, sep)
  {
    var s := p + [sep] + t;
    if p == [] {
      assert s[1..] == t;
    } else {
      assert s[1..] == p[1..] + [sep] + t;
      SplitPieceThen(p[1..], sep, t);
      assert [p[0]] + p[1..] == p;
    }
  }

  /** Splitting a join of separator-free pieces recovers the pieces. */
  lemma {:induction false} SplitJoin(pieces: seq<String>, sep: char)
    requires pieces != []
    requires forall k :: 0 <= k < |pieces| ==> sep !in pieces[k]
    ensures Split(Join(pieces, sep), sep) == pieces
  {
    if |pieces| == 1 {
      SplitNoSep(pieces[0], sep);
    } else {
      SplitJoin(pieces[1..], sep);
      SplitPieceThen(pieces[0], sep, Join(pieces[1..], sep));
    }
  }

  /** The first piece is empty exactly when the string is empty or starts with the separator. */
  lemma FirstPieceEmptyIff(s: String, sep: char)
    ensures Split(s, sep)[0] == [] <==> s == [] || s[0] == sep
  {
  }

  /** A non-empty first piece is the part of s before its first separator. */
  lemma {:induction false} FirstPieceIsPrefix(s: String, sep: char)
    ensures IsPrefix(Split(s, sep)[0], s)
  {
    if s != [] && s[0] != sep {
      FirstPieceIsPrefix(s[1..], sep);
    }
  }

  /** `toLowerCase` restricted to ASCII: 'A'..'Z' become 'a'..'z', everything else is kept. */
  function LowerChar(c: char): char {
    if 'A' <= c <= 'Z' then (c as int + 32) as char else c
  }

  /** `s.toLowerCase()` for ASCII letters, applied character by character. */
  function Lower(s: String): (r: String)
    ensures |r| == |s|
    ensures forall k :: 0 <= k < |s| ==> r[k] == LowerChar(s[k])
  {
    if s == [] then [] else [LowerChar(s[0])] + Lower(s[1..])
  }

  /** Lowercasing twice is lowercasing once, and leaves no ASCII capital. */
  lemma LowerIdempotent(s: String)
    ensures Lower(Lower(s)) == Lower(s)
    ensures forall k :: 0 <= k < |s| ==> !('A' <= Lower(s)[k] <= 'Z')
  {
    assert forall k :: 0 <= k < |s| ==> Lower(Lower(s))[k] == Lower(s)[k];
  }

  predicate IsPrefix(q: String, s: String) {
    |q| <= |s| && s[..|q|] == q
  }

  /** q occurs in s starting at position i. */
  predicate OccursAt(s: String, q: String, i: int) {
    0 <= i && i + |q| <= |s| && s[i..i + |q|] == q
  }

  /** `s.includes(q)`: q occurs in s at some position. */
  predicate Includes(s: String, q: String)
    ensures Includes(s, q) ==> |q| <= |s|
    decreases |s|
  {
    IsPrefix(q, s) || (s != [] && Includes(s[1..], q))
  }

  /** Includes agrees with the definition of a substring by position. */
  lemma {:induction false} IncludesIff(s: String, q: String)
    ensures Includes(s, q) <==> exists i :: OccursAt(s, q, i)
  {
    if IsPrefix(q, s) {
      assert OccursAt(s, q, 0);
    } else if s == [] {
      assert forall i :: !OccursAt(s, q, i);
    } else {
      IncludesIff(s[1..], q);
      if Includes(s[1..], q) {
        var i :| OccursAt(s[1..], q, i);
        assert s[i + 1..i + 1 + |q|] == s[1..][i..i + |q|];
        assert OccursAt(s, q, i + 1);
      } else {
        forall i | 0 < i && OccursAt(s, q, i) ensures OccursAt(s[1..], q, i - 1) {
          var t := s[1..];
          var w := t[i - 1..i - 1 + |q|];
          assert forall k :: 0 <= k < |w| ==> w[k] == s[i..i + |q|][k];
          assert w == q;
        }
      }
    }
  }

  /** Every string includes the empty string. */
  lemma IncludesEmpty(s: String)
    ensures Includes(s, [])
  {
  }
}
