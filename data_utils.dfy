/** DataUtils: the agent data files. A text resource is split into lines,
    each line is trimmed, blank lines and '#' comments are dropped, and each
    remaining `key|value` line becomes a two-element entry. The resource
    loader is replaced by its result: the text of the asset, or `None` when
    no asset exists at the path. */
module DataUtils {
  import opened Wrappers
  import opened Text

  /** `String.Split(new[] {"\r\n", "\n"}, StringSplitOptions.None)`: a
      "\r\n" pair or a lone '\n' ends a line; a lone '\r' does not. */
  function SplitLines(s: string): (r: seq<string>)
    ensures |r| >= 1
    ensures forall i :: 0 <= i < |r| ==> '\n' !in r[i]
  {
    SplitLinesFrom(s, "")
  }

  /** Splitting with `acc` already collected for the current line. */
  function SplitLinesFrom(s: string, acc: string): (r: seq<string>)
    requires '\n' !in acc
    ensures |r| >= 1
    ensures forall i :: 0 <= i < |r| ==> '\n' !in r[i]
    decreases |s|
  {
    if s == [] then [acc]
    else if |s| >= 2 && s[0] == '\r' && s[1] == '\n' then [acc] + SplitLinesFrom(s[2..], "")
    else if s[0] == '\n' then [acc] + SplitLinesFrom(s[1..], "")
    else SplitLinesFrom(s[1..], acc + [s[0]])
  }

  /** The text with every '\n' written as "\r\n". */
  function WithCRLF(s: string): string
  {
    if s == [] then []
    else (if s[0] == '\n' then "\r\n" else [s[0]]) + WithCRLF(s[1..])
  }

  /** A trimmed line that is kept: not empty and not a '#' comment. */
  predicate Kept(line: string)
  {
    line != [] && !StartsWith(line, "#")
  }

  /** One raw line's contribution: its trim, if kept. */
  function Keep(raw: string): seq<string>
  {
    var line := Trim(raw);
    if Kept(line) then [line] else []
  }

  /** The trimmed lines that are kept, in order. */
  function KeptLines(raw: seq<string>): seq<string>
  {
    if raw == [] then [] else KeptLines(raw[..|raw| - 1]) + Keep(raw[|raw| - 1])
  }

  lemma KeptLinesStep(raw: seq<string>, i: nat)
    requires i < |raw|
    ensures KeptLines(raw[..i + 1])
         == KeptLines(raw[..i]) + (if Kept(Trim(raw[i])) then [Trim(raw[i])] else [])
  {
    assert raw[..i + 1][..i] == raw[..i];
  }

  /** What `ReadLinesFromResources` returns for a path whose asset has the
      given text. */
  function ReadLines(resourcePath: Option<string>, asset: Option<string>): seq<string>
  {
    if resourcePath.None? || resourcePath.value == [] || asset.None? then []
    else KeptLines(SplitLines(asset.value))
  }

  /** `ReadLinesFromResources`: nothing for a null or empty path or a
      missing asset; otherwise the kept lines of the asset's text. */
  method ReadLinesFromResources(resourcePath: Option<string>, asset: Option<string>)
    returns (result: seq<string>)
    ensures result == ReadLines(resourcePath, asset)
    ensures forall k :: 0 <= k < |result| ==> Kept(result[k]) && Trim(result[k]) == result[k]
  {
    result := [];
    if resourcePath.None? || resourcePath.value == [] {
      return;
    }
    if asset.None? {
      return;
    }
    var lines := SplitLines(asset.value);
    var i := 0;
    while i < |lines|
      invariant 0 <= i <= |lines|
      invariant result == KeptLines(lines[..i])
    {
      KeptLinesStep(lines, i);
      var line := Trim(lines[i]);
      if line != [] && !StartsWith(line, "#") {
        result := result + [line];
      }
      i := i + 1;
    }
    assert lines[..i] == lines;
    KeptLinesSound(lines);
  }

  /** Every kept line is trimmed, not empty and not a comment. */
  lemma {:induction false} KeptLinesSound(raw: seq<string>)
    ensures forall k :: 0 <= k < |KeptLines(raw)| ==>
      Kept(KeptLines(raw)[k]) && Trim(KeptLines(raw)[k]) == KeptLines(raw)[k]
  {
    if raw != [] {
      KeptLinesSound(raw[..|raw| - 1]);
      TrimIdempotent(raw[|raw| - 1]);
    }
  }

  /** No line that survives trimming and is not a comment is lost. */
  lemma {:induction false} KeptLinesComplete(raw: seq<string>, i: nat)
    requires i < |raw| && Kept(Trim(raw[i]))
    ensures Trim(raw[i]) in KeptLines(raw)
  {
    if i < |raw| - 1 {
      KeptLinesComplete(raw[..|raw| - 1], i);
    }
  }

  /** Reading the kept lines again keeps all of them. */
  lemma {:induction false} KeptLinesIdempotent(raw: seq<string>)
    ensures KeptLines(KeptLines(raw)) == KeptLines(raw)
  {
    if raw != [] {
      var init := raw[..|raw| - 1];
      var x := KeptLines(init);
      var t := Keep(raw[|raw| - 1]);
      KeptLinesIdempotent(init);
      assert KeptLines(raw) == x + t;
      if t != [] {
        TrimIdempotent(raw[|raw| - 1]);
        assert (x + t)[..|x|] == x;
        assert Keep(t[0]) == t;
      } else {
        assert x + t == x;
      }
    }
  }

  lemma {:induction false} SplitLinesFromUnix(s: string, acc: string)
    requires '\r' !in s && '\n' !in acc
    ensures SplitLinesFrom(s, acc) == SplitFrom(s, '\n', acc)
    decreases |s|
  {
    if s != [] {
      assert s[0] in s;
      assert forall c :: c in s[1..] ==> c in s;
      if s[0] == '\n' {
        SplitLinesFromUnix(s[1..], "");
      } else {
        SplitLinesFromUnix(s[1..], acc + [s[0]]);
      }
    }
  }

  /** Text without '\r' splits into lines exactly at its '\n's. */
  lemma SplitLinesUnix(s: string)
    requires '\r' !in s
    ensures SplitLines(s) == Split(s, '\n')
  {
    SplitLinesFromUnix(s, "");
  }

  lemma {:induction false} SplitLinesFromCRLF(s: string, acc: string)
    requires '\r' !in s && '\n' !in acc
    ensures SplitLinesFrom(WithCRLF(s), acc) == SplitFrom(s, '\n', acc)
    decreases |s|
  {
    if s != [] {
      assert s[0] in s;
      assert forall c :: c in s[1..] ==> c in s;
      var w := WithCRLF(s);
      if s[0] == '\n' {
        assert w[2..] == WithCRLF(s[1..]);
        SplitLinesFromCRLF(s[1..], "");
      } else {
        assert w[0] == s[0] && w[1..] == WithCRLF(s[1..]);
        SplitLinesFromCRLF(s[1..], acc + [s[0]]);
      }
    }
  }

  /** A file written with "\r\n" line ends reads the same lines as the
      same file written with '\n'. */
  lemma SplitLinesCRLF(s: string)
    requires '\r' !in s
    ensures SplitLines(WithCRLF(s)) == SplitLines(s)
  {
    SplitLinesFromCRLF(s, "");
    SplitLinesUnix(s);
  }

  /** Writing a line break as "\r\n" instead of "\n" changes nothing. */
  lemma {:induction false} SplitLinesFromBreak(a: string, b: string, acc: string)
    requires '\n' !in acc && '\n' !in a && (a == [] || a[|a| - 1] != '\r')
    ensures SplitLinesFrom(a + "\r\n" + b, acc) == SplitLinesFrom(a + "\n" + b, acc)
    decreases |a|
  {
    if a != [] {
      assert a[0] in a;
      assert forall c :: c in a[1..] ==> c in a;
      assert (a + "\r\n" + b)[1..] == a[1..] + "\r\n" + b;
      assert (a + "\n" + b)[1..] == a[1..] + "\n" + b;
      assert (a + "\r\n" + b)[0] == a[0] && (a + "\n" + b)[0] == a[0];
      assert (a + "\r\n" + b)[1] == (if |a| == 1 then '\r' else a[1]);
      assert (a + "\n" + b)[1] == (if |a| == 1 then '\n' else a[1]);
      SplitLinesFromBreak(a[1..], b, acc + [a[0]]);
    } else {
      assert a + "\r\n" + b == "\r\n" + b;
      assert a + "\n" + b == "\n" + b;
    }
  }

  /** `ParseData`'s reading of one line: fewer than two '|'-separated parts
      is skipped, otherwise the first two parts, trimmed. */
  function ParseLine(line: string): Option<seq<string>>
  {
    var entries := Split(line, '|');
    if |entries| < 2 then None else Some([Trim(entries[0]), Trim(entries[1])])
  }

  /** The entries of the lines, in order. */
  function Entries(lines: seq<string>): seq<seq<string>>
  {
    if lines == [] then []
    else
      var e := ParseLine(lines[|lines| - 1]);
      Entries(lines[..|lines| - 1]) + (if e.Some? then [e.value] else [])
  }

  lemma EntriesStep(lines: seq<string>, i: nat)
    requires i < |lines|
    ensures Entries(lines[..i + 1])
         == Entries(lines[..i]) + (if ParseLine(lines[i]).Some? then [ParseLine(lines[i]).value] else [])
  {
    assert lines[..i + 1][..i] == lines[..i];
  }

  /** What `ParseData` returns for a path whose asset has the given text. */
  function ParsedData(resourcePath: Option<string>, asset: Option<string>): seq<seq<string>>
  {
    Entries(ReadLines(resourcePath, asset))
  }

  /** `ParseData`: the two-element entry of every line that has a '|'. The
      warning on a skipped line is not modelled. */
  method ParseData(resourcePath: Option<string>, asset: Option<string>) returns (parsed: seq<seq<string>>)
    ensures parsed == ParsedData(resourcePath, asset)
    ensures forall k :: 0 <= k < |parsed| ==> |parsed[k]| == 2
  {
    var lines := ReadLinesFromResources(resourcePath, asset);
    parsed := [];
    var i := 0;
    while i < |lines|
      invariant 0 <= i <= |lines|
      invariant parsed == Entries(lines[..i])
    {
      EntriesStep(lines, i);
      var entries := Split(lines[i], '|');
      if |entries| >= 2 {
        var entry0 := Trim(entries[0]);
        var entry1 := Trim(entries[1]);
        parsed := parsed + [[entry0, entry1]];
      }
      i := i + 1;
    }
    assert lines[..i] == lines;
    EntriesShape(lines);
  }

  /** A line is skipped exactly when it has no '|'. */
  lemma ParseLineSkips(line: string)
    ensures ParseLine(line).None? <==> '|' !in line
  {
    var entries := Split(line, '|');
    if '|' !in line {
      SplitNoSeparator(line, '|', "");
    } else {
      SplitJoin(line, '|');
    }
  }

  /** The key is the trimmed text before the first '|', and neither part
      holds a '|'. */
  lemma ParseLineKey(line: string)
    requires ParseLine(line).Some?
    ensures ParseLine(line).value[0] == Trim(line[..IndexOf(line, '|')])
    ensures '|' !in ParseLine(line).value[0] && '|' !in ParseLine(line).value[1]
  {
    var entries := Split(line, '|');
    SplitFirst(line, '|');
    TrimSubset(entries[0]);
    TrimSubset(entries[1]);
  }

  /** A `key|value` line with trimmed parts and no other '|' reads back as
      [key, value]. */
  lemma ParseLineOfEntry(key: string, value: string)
    requires '|' !in key && '|' !in value
    requires Trim(key) == key && Trim(value) == value
    ensures ParseLine(key + "|" + value) == Some([key, value])
  {
    JoinSplit([key, value], '|');
    assert Join([key, value], '|') == key + "|" + value;
  }

  /** A line "key|" gives the key and an empty value. */
  lemma EmptyValue()
    ensures ParseLine("key|") == Some(["key", ""])
  {
    assert !IsWhiteSpace('k') && !IsWhiteSpace('y');
    TrimFixed("key");
    ParseLineOfEntry("key", "");
    assert "key" + "|" + "" == "key|";
  }

  /** Every entry has two trimmed parts without '|'. */
  lemma {:induction false} EntriesShape(lines: seq<string>)
    ensures forall k :: 0 <= k < |Entries(lines)| ==>
      |Entries(lines)[k]| == 2 && '|' !in Entries(lines)[k][0] && '|' !in Entries(lines)[k][1]
  {
    if lines != [] {
      EntriesShape(lines[..|lines| - 1]);
      var line := lines[|lines| - 1];
      if ParseLine(line).Some? {
        ParseLineKey(line);
      }
    }
  }

  /** Every line with a '|' gives an entry. */
  lemma {:induction false} EntriesComplete(lines: seq<string>, i: nat)
    requires i < |lines| && '|' in lines[i]
    ensures ParseLine(lines[i]).Some? && ParseLine(lines[i]).value in Entries(lines)
  {
    ParseLineSkips(lines[i]);
    if i < |lines| - 1 {
      EntriesComplete(lines[..|lines| - 1], i);
    }
  }
}
