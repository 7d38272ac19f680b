/** The .NET string primitives the text utilities are built on:
    `Char.IsWhiteSpace`, `String.Trim`, `String.Split(char)` and joining. */
module Text {

  /** `Char.IsWhiteSpace`: the Unicode separators plus the C0 and C1
      whitespace controls. */
  predicate IsWhiteSpace(c: char)
  {
    || ('\U{0009}' <= c <= '\U{000D}')
    || c == ' ' || c == '\U{0085}' || c == '\U{00A0}' || c == '\U{1680}'
    || ('\U{2000}' <= c <= '\U{200A}')
    || c == '\U{2028}' || c == '\U{2029}' || c == '\U{202F}' || c == '\U{205F}' || c == '\U{3000}'
  }

  predicate AllWhiteSpace(s: string)
  {
    forall i :: 0 <= i < |s| ==> IsWhiteSpace(s[i])
  }

  /** The number of leading whitespace characters. */
  function LeadingWhite(s: string): (n: nat)
    ensures n <= |s| && AllWhiteSpace(s[..n])
    ensures n == |s| || !IsWhiteSpace(s[n])
  {
    if s == [] || !IsWhiteSpace(s[0]) then 0
    else
      var n := LeadingWhite(s[1..]);
      assert forall i :: 1 <= i < n + 1 ==> s[i] == s[1..][i - 1];
      n + 1
  }

  /** The number of trailing whitespace characters. */
  function TrailingWhite(s: string): (n: nat)
    ensures n <= |s| && AllWhiteSpace(s[|s| - n..])
    ensures n == |s| || !IsWhiteSpace(s[|s| - 1 - n])
  {
    if s == [] || !IsWhiteSpace(s[|s| - 1]) then 0
    else
      var n := TrailingWhite(s[..|s| - 1]);
      assert forall i :: |s| - 1 - n <= i < |s| - 1 ==> s[i] == s[..|s| - 1][i];
      n + 1
  }

  /** `String.TrimStart()`: drops the leading whitespace. */
  function TrimStart(s: string): string
  {
    s[LeadingWhite(s)..]
  }

  /** `String.TrimEnd()`: drops the trailing whitespace. */
  function TrimEnd(s: string): string
  {
    s[..|s| - TrailingWhite(s)]
  }

  /** `String.Trim()`. */
  function Trim(s: string): string
  {
    TrimEnd(TrimStart(s))
  }

  /** A trimmed string is a contiguous piece of the input with whitespace
      cut off both ends, and nothing but whitespace was cut. */
  lemma TrimShape(s: string)
    ensures exists i, j :: 0 <= i <= j <= |s| && Trim(s) == s[i..j]
                           && AllWhiteSpace(s[..i]) && AllWhiteSpace(s[j..])
    ensures Trim(s) == [] || (!IsWhiteSpace(Trim(s)[0]) && !IsWhiteSpace(Trim(s)[|Trim(s)| - 1]))
  {
    var i := LeadingWhite(s);
    var t := s[i..];
    var n := TrailingWhite(t);
    var j := |s| - n;
    assert Trim(s) == s[i..j];
    assert s[j..] == t[|t| - n..];
    if Trim(s) != [] {
      assert Trim(s)[0] == s[i];
      assert Trim(s)[|Trim(s)| - 1] == t[|t| - 1 - n];
    }
  }

  /** Trimming yields the empty string exactly when the input is all
      whitespace (`String.IsNullOrWhiteSpace` on a non-null string). */
  lemma TrimEmptyIffWhiteSpace(s: string)
    ensures Trim(s) == [] <==> AllWhiteSpace(s)
  {
    var i := LeadingWhite(s);
    var t := s[i..];
    if i < |s| {
      var n := TrailingWhite(t);
      assert !IsWhiteSpace(t[0]);
      assert n < |t| by {
        assert t[|t| - |t|..] == t;
      }
      assert |Trim(s)| == |t| - n;
    } else {
      assert s[..i] == s;
    }
  }

  /** Trimming only removes characters. */
  lemma TrimSubset(s: string)
    ensures forall c :: c in Trim(s) ==> c in s
  {
    var t := TrimStart(s);
    var r := TrimEnd(t);
    forall c | c in r ensures c in s {
      var k :| 0 <= k < |r| && r[k] == c;
      assert t[k] == c;
      assert s[|s| - |t| + k] == c;
    }
  }

  lemma TrimIdempotent(s: string)
    ensures Trim(Trim(s)) == Trim(s)
  {
    var r := Trim(s);
    TrimShape(s);
    if r != [] {
      assert LeadingWhite(r) == 0 && TrailingWhite(r) == 0;
      assert r[0..] == r && r[..|r|] == r;
    }
  }

  /** `String.Split(sep)` with no options: the pieces between separators,
      always at least one. */
  function Split(s: string, sep: char): (r: seq<string>)
    ensures |r| >= 1
    ensures forall i :: 0 <= i < |r| ==> sep !in r[i]
  {
    SplitFrom(s, sep, "")
  }

  /** Splitting with `acc` already collected for the current piece. */
  function SplitFrom(s: string, sep: char, acc: string): (r: seq<string>)
    requires sep !in acc
    ensures |r| >= 1
    ensures forall i :: 0 <= i < |r| ==> sep !in r[i]
    decreases |s|
  {
    if s == [] then [acc]
    else if s[0] == sep then [acc] + SplitFrom(s[1..], sep, "")
    else SplitFrom(s[1..], sep, acc + [s[0]])
  }

  /** `String.Join(sep, parts)`. */
  function Join(parts: seq<string>, sep: char): string
  {
    if parts == [] then ""
    else if |parts| == 1 then parts[0]
    else parts[0] + [sep] + Join(parts[1..], sep)
  }

  lemma {:induction false} SplitFromJoin(s: string, sep: char, acc: string)
    requires sep !in acc
    ensures Join(SplitFrom(s, sep, acc), sep) == acc + s
    decreases |s|
  {
    if s == [] {
    } else if s[0] == sep {
      SplitFromJoin(s[1..], sep, "");
      assert s == [sep] + s[1..];
    } else {
      SplitFromJoin(s[1..], sep, acc + [s[0]]);
      assert acc + [s[0]] + s[1..] == acc + s;
    }
  }

  /** Splitting loses nothing: joining the pieces with the separator gives
      the input back. */
  lemma SplitJoin(s: string, sep: char)
    ensures Join(Split(s, sep), sep) == s
  {
    SplitFromJoin(s, sep, "");
  }

  /** Only the separators split: a string without one is a single piece. */
  lemma {:induction false} SplitNoSeparator(s: string, sep: char, acc: string)
    requires sep !in acc && sep !in s
    ensures SplitFrom(s, sep, acc) == [acc + s]
    decreases |s|
  {
    if s == [] {
      assert acc + s == acc;
    } else {
      assert s[0] in s && s[0] != sep;
      assert forall c :: c in s[1..] ==> c in s;
      SplitNoSeparator(s[1..], sep, acc + [s[0]]);
      assert acc + [s[0]] + s[1..] == acc + s;
    }
  }

  /** The number of occurrences of c in s. */
  function Count(s: string, c: char): nat
  {
    if s == [] then 0 else Count(s[..|s| - 1], c) + (if s[|s| - 1] == c then 1 else 0)
  }

  /** `String.IndexOf(c)`, with "not found" reported as the length. */
  function IndexOf(s: string, c: char): (k: nat)
    ensures k <= |s| && c !in s[..k]
    ensures k < |s| ==> s[k] == c
  {
    if s == [] || s[0] == c then 0
    else
      var k := IndexOf(s[1..], c);
      assert s[..k + 1] == [s[0]] + s[1..][..k];
      k + 1
  }

  /** A string that neither starts nor ends with whitespace is its own
      trim. */
  lemma TrimFixed(s: string)
    requires s != [] ==> !IsWhiteSpace(s[0]) && !IsWhiteSpace(s[|s| - 1])
    ensures Trim(s) == s
  {
    if s != [] {
      assert LeadingWhite(s) == 0 && s[0..] == s;
      assert TrailingWhite(s) == 0 && s[..|s|] == s;
    }
  }

  lemma {:induction false} SplitFromFirst(s: string, sep: char, acc: string)
    requires sep !in acc
    ensures SplitFrom(s, sep, acc)[0] == acc + s[..IndexOf(s, sep)]
    decreases |s|
  {
    if s == [] {
    } else if s[0] == sep {
    } else {
      SplitFromFirst(s[1..], sep, acc + [s[0]]);
      assert s[..IndexOf(s, sep)] == [s[0]] + s[1..][..IndexOf(s[1..], sep)];
    }
  }

  /** The first piece of a split is the text before the first separator. */
  lemma SplitFirst(s: string, sep: char)
    ensures Split(s, sep)[0] == s[..IndexOf(s, sep)]
  {
    SplitFromFirst(s, sep, "");
  }

  lemma {:induction false} SplitFromPiece(p: string, rest: string, sep: char, acc: string)
    requires sep !in acc && sep !in p
    ensures SplitFrom(p + [sep] + rest, sep, acc) == [acc + p] + SplitFrom(rest, sep, "")
    decreases |p|
  {
    if p == [] {
      assert p + [sep] + rest == [sep] + rest;
      assert acc + p == acc;
    } else {
      assert (p + [sep] + rest)[0] == p[0] && p[0] in p;
      assert (p + [sep] + rest)[1..] == p[1..] + [sep] + rest;
      assert forall c :: c in p[1..] ==> c in p;
      SplitFromPiece(p[1..], rest, sep, acc + [p[0]]);
      assert acc + [p[0]] + p[1..] == acc + p;
    }
  }

  /** Joining pieces that contain no separator and splitting again gives
      the pieces back. */
  lemma {:induction false} JoinSplit(parts: seq<string>, sep: char)
    requires |parts| >= 1
    requires forall i :: 0 <= i < |parts| ==> sep !in parts[i]
    ensures Split(Join(parts, sep), sep) == parts
    decreases |parts|
  {
    if |parts| == 1 {
      SplitNoSeparator(parts[0], sep, "");
      assert "" + parts[0] == parts[0];
    } else {
      JoinSplit(parts[1..], sep);
      SplitFromPiece(parts[0], Join(parts[1..], sep), sep, "");
      assert "" + parts[0] == parts[0];
      assert parts == [parts[0]] + parts[1..];
    }
  }

  predicate StartsWith(s: string, prefix: string)
  {
    |prefix| <= |s| && s[..|prefix|] == prefix
  }
}
