/** TagOutputSanitizer: pulls the `<…>` tags out of a model's reply.
    The scanner walks the text once; a '<' opens a tag, a '>' closes it, and
    a nested '<' or a stray '>' makes the whole reply invalid (null). */
module TagOutputSanitizer {
  import opened Wrappers
  import opened Text

  predicate IsBracket(c: char)
  {
    c == '<' || c == '>'
  }

  /** The positions of the angle brackets of s, in increasing order. */
  function BracketPos(s: string): (p: seq<nat>)
    ensures forall k :: 0 <= k < |p| ==> p[k] < |s|
  {
    if s == [] then []
    else
      var q := BracketPos(s[..|s| - 1]);
      if IsBracket(s[|s| - 1]) then q + [|s| - 1] else q
  }

  /** The brackets of s alternate, opening first: `<`, `>`, `<`, `>`, …
      (an unterminated final `<` is allowed). */
  predicate Alternating(s: string)
  {
    var p := BracketPos(s);
    forall k :: 0 <= k < |p| ==> s[p[k]] == (if k % 2 == 0 then '<' else '>')
  }

  /** Tag number k of an alternating string: the text strictly between its
      k-th opening bracket and the closing bracket after it. */
  function TagAt(s: string, k: nat): string
    requires 2 * k + 1 < |BracketPos(s)|
  {
    var p := BracketPos(s);
    BracketPosIncreasing(s);
    s[p[2 * k] + 1 .. p[2 * k + 1]]
  }

  /** What the scanner knows after reading `pre`: the brackets so far
      alternate, it is inside a tag iff an odd number of brackets was read,
      `tags` holds every closed tag, and `tag` the text of the open one. */
  ghost predicate ScanInv(pre: string, insideTag: bool, tag: string, tags: seq<string>)
  {
    var p := BracketPos(pre);
    && Alternating(pre)
    && (insideTag <==> |p| % 2 == 1)
    && |tags| == |p| / 2
    && (forall k :: 0 <= k < |tags| ==> tags[k] == TagAt(pre, k))
    && (insideTag ==> tag == pre[p[|p| - 1] + 1 ..])
  }

  /** `ExtractTags`: null (None) unless the brackets alternate; otherwise
      the text between each `<` and the next `>`, in order. Text outside
      tags and an unterminated last tag contribute nothing. */
  method ExtractTags(str: string) returns (r: Option<seq<string>>)
    ensures r.None? <==> !Alternating(str)
    ensures r.Some? ==> |r.value| == |BracketPos(str)| / 2
    ensures r.Some? ==> forall k :: 0 <= k < |r.value| ==> r.value[k] == TagAt(str, k)
  {
    var insideTag := false;
    var tag := "";
    var allTags: seq<string> := [];
    var i := 0;
    while i < |str|
      invariant 0 <= i <= |str|
      invariant ScanInv(str[..i], insideTag, tag, allTags)
    {
      var c := str[i];
      ScanStepKeepsTags(str, i, allTags);
      if c == '<' {
        if insideTag {
          ScanRejects(str, i, insideTag, tag, allTags);
          return None;
        }
        ScanOpen(str, i, tag, allTags);
        insideTag := true;
        tag := "";
      } else if c == '>' {
        if !insideTag {
          ScanRejects(str, i, insideTag, tag, allTags);
          return None;
        }
        ScanClose(str, i, tag, allTags);
        allTags := allTags + [tag];
        insideTag := false;
        tag := "";
      } else {
        ScanOther(str, i, insideTag, tag, allTags);
        if insideTag {
          tag := tag + [c];
        }
      }
      i := i + 1;
    }
    assert str[..i] == str;
    r := Some(allTags);
  }

  /** Reading one more character does not change the tags already closed. */
  lemma ScanStepKeepsTags(s: string, i: nat, tags: seq<string>)
    requires i < |s| && 2 * |tags| <= |BracketPos(s[..i])|
    ensures 2 * |tags| <= |BracketPos(s[..i + 1])|
    ensures forall k :: 0 <= k < |tags| && 2 * k + 1 < |BracketPos(s[..i])| ==>
              TagAt(s[..i + 1], k) == TagAt(s[..i], k)
  {
    BracketPosSnoc(s, i);
    forall k | 0 <= k < |tags| && 2 * k + 1 < |BracketPos(s[..i])| ensures TagAt(s[..i + 1], k) == TagAt(s[..i], k) {
      TagAtSnoc(s, i, k);
    }
  }

  lemma TagAtSnoc(s: string, i: nat, k: nat)
    requires i < |s| && 2 * k + 1 < |BracketPos(s[..i])|
    ensures 2 * k + 1 < |BracketPos(s[..i + 1])|
    ensures TagAt(s[..i + 1], k) == TagAt(s[..i], k)
  {
    var pre := s[..i];
    var p := BracketPos(pre);
    BracketPosSnoc(s, i);
    var p' := BracketPos(s[..i + 1]);
    assert p'[2 * k] == p[2 * k] && p'[2 * k + 1] == p[2 * k + 1];
    BracketPosIncreasing(pre);
    var lo, hi := p[2 * k] + 1, p[2 * k + 1];
    assert hi < i;
    assert forall j :: 0 <= j < hi - lo ==> s[..i + 1][lo..hi][j] == s[lo + j] == pre[lo..hi][j];
    assert s[..i + 1][lo..hi] == pre[lo..hi];
  }

  /** A `<` inside a tag, or a `>` outside one, breaks the alternation. */
  lemma ScanRejects(s: string, i: nat, insideTag: bool, tag: string, tags: seq<string>)
    requires i < |s| && ScanInv(s[..i], insideTag, tag, tags)
    requires (s[i] == '<' && insideTag) || (s[i] == '>' && !insideTag)
    ensures !Alternating(s)
  {
    var p := BracketPos(s[..i]);
    BracketPosSnoc(s, i);
    assert BracketPos(s[..i + 1])[|p|] == i && s[..i + 1][i] == s[i];
    PrefixNotAlternating(s, i + 1);
  }

  lemma ScanOpen(s: string, i: nat, tag: string, tags: seq<string>)
    requires i < |s| && s[i] == '<' && ScanInv(s[..i], false, tag, tags)
    ensures ScanInv(s[..i + 1], true, "", tags)
  {
    var p := BracketPos(s[..i]);
    ScanStepKeepsTags(s, i, tags);
    BracketPosSnoc(s, i);
    var p' := BracketPos(s[..i + 1]);
    assert p'[|p|] == i;
    forall k | 0 <= k < |p'| ensures s[..i + 1][p'[k]] == (if k % 2 == 0 then '<' else '>') {
      if k < |p| {
        assert p'[k] == p[k] && s[..i + 1][p[k]] == s[..i][p[k]];
      }
    }
    assert s[..i + 1][i + 1..] == "";
  }

  lemma ScanClose(s: string, i: nat, tag: string, tags: seq<string>)
    requires i < |s| && s[i] == '>' && ScanInv(s[..i], true, tag, tags)
    ensures ScanInv(s[..i + 1], false, "", tags + [tag])
  {
    var p := BracketPos(s[..i]);
    ScanStepKeepsTags(s, i, tags);
    BracketPosSnoc(s, i);
    var p' := BracketPos(s[..i + 1]);
    assert p'[|p|] == i && p'[|p| - 1] == p[|p| - 1];
    forall k | 0 <= k < |p'| ensures s[..i + 1][p'[k]] == (if k % 2 == 0 then '<' else '>') {
      if k < |p| {
        assert p'[k] == p[k] && s[..i + 1][p[k]] == s[..i][p[k]];
      }
    }
    assert TagAt(s[..i + 1], |tags|) == s[..i][p[|p| - 1] + 1 ..];
  }

  lemma ScanOther(s: string, i: nat, insideTag: bool, tag: string, tags: seq<string>)
    requires i < |s| && !IsBracket(s[i]) && ScanInv(s[..i], insideTag, tag, tags)
    ensures ScanInv(s[..i + 1], insideTag, if insideTag then tag + [s[i]] else tag, tags)
  {
    var p := BracketPos(s[..i]);
    ScanStepKeepsTags(s, i, tags);
    BracketPosSnoc(s, i);
    forall k | 0 <= k < |p| ensures s[..i + 1][p[k]] == (if k % 2 == 0 then '<' else '>') {
      assert s[..i + 1][p[k]] == s[..i][p[k]];
    }
    if insideTag {
      assert s[..i + 1][p[|p| - 1] + 1 ..] == s[..i][p[|p| - 1] + 1 ..] + [s[i]];
    }
  }

  /** Brackets of a prefix are a prefix of the brackets. */
  lemma {:induction false} BracketPosPrefix(s: string, j: nat)
    requires j <= |s|
    ensures |BracketPos(s[..j])| <= |BracketPos(s)|
    ensures BracketPos(s[..j]) == BracketPos(s)[..|BracketPos(s[..j])|]
    decreases |s|
  {
    if j < |s| {
      var t := s[..|s| - 1];
      assert t[..j] == s[..j];
      BracketPosPrefix(t, j);
      var q := BracketPos(t);
      assert BracketPos(s)[..|q|] == q;
      var L := |BracketPos(s[..j])|;
      assert BracketPos(s)[..L] == q[..L];
    } else {
      assert s[..j] == s;
    }
  }

  /** A prefix that already breaks the alternation breaks it for the whole. */
  lemma PrefixNotAlternating(s: string, j: nat)
    requires j <= |s| && !Alternating(s[..j])
    ensures !Alternating(s)
  {
    BracketPosPrefix(s, j);
    var q := BracketPos(s[..j]);
    var k :| 0 <= k < |q| && s[..j][q[k]] != (if k % 2 == 0 then '<' else '>');
    assert BracketPos(s)[k] == q[k];
  }

  /** On an alternating string every `>` closes one tag: the number of tags
      is the number of `>` characters. */
  lemma {:induction false} TagCountIsCloseCount(s: string)
    requires Alternating(s)
    ensures |BracketPos(s)| / 2 == Count(s, '>')
    decreases |s|
  {
    if s != [] {
      var t := s[..|s| - 1];
      var n := |BracketPos(t)|;
      BracketPosSnoc(s, |s| - 1);
      assert s[..|s|] == s;
      assert Alternating(t) by {
        forall k | 0 <= k < n ensures t[BracketPos(t)[k]] == (if k % 2 == 0 then '<' else '>') {
          assert BracketPos(s)[k] == BracketPos(t)[k];
        }
      }
      TagCountIsCloseCount(t);
      if IsBracket(s[|s| - 1]) {
        assert BracketPos(s)[n] == |s| - 1;
      }
    }
  }

  /** Extending a prefix by one character adds its position when it is a
      bracket. */
  lemma BracketPosSnoc(s: string, i: nat)
    requires i < |s|
    ensures BracketPos(s[..i + 1]) == BracketPos(s[..i]) + (if IsBracket(s[i]) then [i] else [])
  {
    assert s[..i + 1][..i] == s[..i];
  }

  /** The listed positions increase. */
  lemma {:induction false} BracketPosIncreasing(s: string)
    ensures forall k, m :: 0 <= k < m < |BracketPos(s)| ==> BracketPos(s)[k] < BracketPos(s)[m]
    decreases |s|
  {
    if s != [] {
      BracketPosIncreasing(s[..|s| - 1]);
    }
  }

  /** Every listed position holds a bracket, and every bracket is listed. */
  lemma {:induction false} BracketPosExact(s: string)
    ensures forall k :: 0 <= k < |BracketPos(s)| ==> IsBracket(s[BracketPos(s)[k]])
    ensures forall i :: 0 <= i < |s| && IsBracket(s[i]) ==> i in BracketPos(s)
    decreases |s|
  {
    if s != [] {
      var t := s[..|s| - 1];
      BracketPosExact(t);
      assert forall i :: 0 <= i < |t| ==> t[i] == s[i];
    }
  }

  /** No extracted tag contains an angle bracket. */
  lemma TagsHaveNoBrackets(s: string, k: nat)
    requires 2 * k + 1 < |BracketPos(s)|
    ensures forall c :: c in TagAt(s, k) ==> !IsBracket(c)
  {
    var p := BracketPos(s);
    BracketPosExact(s);
    BracketPosIncreasing(s);
    var lo, hi := p[2 * k], p[2 * k + 1];
    var tag := TagAt(s, k);
    assert tag == s[lo + 1 .. hi];
    forall j | 0 <= j < |tag| ensures !IsBracket(tag[j]) {
      var i := lo + 1 + j;
      assert tag[j] == s[i];
      if IsBracket(s[i]) {
        assert false;
      }
    }
  }

  lemma {:induction false} BracketPosNoBrackets(x: string, m: string)
    requires forall c :: c in m ==> !IsBracket(c)
    ensures BracketPos(x + m) == BracketPos(x)
    decreases |m|
  {
    if m != [] {
      var m' := m[..|m| - 1];
      var xm := x + m;
      assert xm[..|xm| - 1] == x + m';
      assert xm[|xm| - 1] == m[|m| - 1] && m[|m| - 1] in m;
      assert !IsBracket(xm[|xm| - 1]);
      assert BracketPos(xm) == BracketPos(xm[..|xm| - 1]);
      assert forall c :: c in m' ==> c in m;
      BracketPosNoBrackets(x, m');
    } else {
      assert x + m == x;
    }
  }

  /** A `>` that follows another `>` with no `<` in between is a stray
      closing bracket: the reply is rejected. */
  lemma DoubleCloseFails(a: string, m: string)
    requires forall c :: c in m ==> !IsBracket(c)
    ensures !Alternating(a + ">" + m + ">")
  {
    var s := a + ">" + m + ">";
    var t := a + ">" + m;
    assert s[..|s| - 1] == t;
    BracketPosNoBrackets(a + ">", m);
    assert (a + ">")[..|a|] == a;
    var p := BracketPos(s);
    var n := |BracketPos(a)|;
    assert p == BracketPos(a) + [|a|] + [|s| - 1];
    assert s[p[n]] == '>' && s[p[n + 1]] == '>';
  }

  /** The sample reply of `TestSanitizer`, cut just before its last two
      closing brackets. */
  const SampleHead: string := "<THOUGHT>Oh no, here we go. I'm so nervous! Please don't reject me.</THOUGHT>\r\n<ACTION>Rin smiles nervously and fidgets with her fingers as she speaks.</ACTION>\r\n<DIALOGUE"
  const SampleTail1: string := "Hi Raven. I just wanted "
  const SampleTail2: string := "to have you over for a visit,"
  const SampleTail3: string := " enjoy some time together."
  const SampleTail4: string := "\r\nDIALOGUE"
  const SampleTail: string := SampleTail1 + SampleTail2 + SampleTail3 + SampleTail4
  const Sample: string := SampleHead + ">" + SampleTail + ">"

  /** The sample reply of `TestSanitizer` is rejected: its trailing
      "DIALOGUE>" closes a tag that was never opened. */
  lemma SampleIsRejected()
    ensures !Alternating(Sample)
  {
    assert forall c :: c in SampleTail1 ==> !IsBracket(c);
    assert forall c :: c in SampleTail2 ==> !IsBracket(c);
    assert forall c :: c in SampleTail3 ==> !IsBracket(c);
    assert forall c :: c in SampleTail4 ==> !IsBracket(c);
    DoubleCloseFails(SampleHead, SampleTail);
  }
}
