/** BaseData: the common part of the agent and location records read from
    data files. `ReplaceAll` fills the "{{user}}" placeholder; the loader
    walks the parsed `key|value` entries and sets `dataName` from every
    "dataName" entry, so the last one wins. A null string is `None`; the
    record's GUID is a constructor parameter. */
module BaseData {
  import opened Wrappers

  /** `user_descriptor`: the placeholder for the user's name. */
  const UserDescriptor: string := "{{user}}"

  /** `String.Replace(old, new)` with a non-empty `old`: every occurrence,
      left to right and not overlapping, is replaced; the replacement text
      is never scanned again. */
  function Replace(s: string, pat: string, rep: string): string
    requires pat != []
    decreases |s|
  {
    if |s| < |pat| then s
    else if s[..|pat|] == pat then rep + Replace(s[|pat|..], pat, rep)
    else [s[0]] + Replace(s[1..], pat, rep)
  }

  /** `ReplaceAll`: null stays null, a null or empty pattern changes
      nothing, and a null replacement deletes the occurrences. */
  function ReplaceAll(input: Option<string>, toReplace: Option<string>, toReplaceWith: Option<string>)
    : (r: Option<string>)
    ensures r.None? <==> input.None?
    ensures toReplace.None? || toReplace.value == [] ==> r == input
  {
    if input.None? then None
    else if toReplace.None? || toReplace.value == [] then input
    else Some(Replace(input.value, toReplace.value, if toReplaceWith.None? then "" else toReplaceWith.value))
  }

  predicate OccursAt(s: string, pat: string, i: nat)
  {
    i + |pat| <= |s| && s[i..i + |pat|] == pat
  }

  /** Text in which the pattern does not occur is returned unchanged. */
  lemma {:induction false} ReplaceAbsent(s: string, pat: string, rep: string)
    requires pat != []
    requires forall i :: 0 <= i <= |s| ==> !OccursAt(s, pat, i)
    ensures Replace(s, pat, rep) == s
    decreases |s|
  {
    if |s| >= |pat| {
      assert !OccursAt(s, pat, 0);
      forall i | 0 <= i <= |s[1..]| ensures !OccursAt(s[1..], pat, i) {
        assert !OccursAt(s, pat, i + 1);
        if i + |pat| <= |s[1..]| {
          assert s[1..][i..i + |pat|] == s[i + 1..i + 1 + |pat|];
        }
      }
      ReplaceAbsent(s[1..], pat, rep);
    }
  }

  /** Replacing the pattern by itself changes nothing. */
  lemma {:induction false} ReplaceSelf(s: string, pat: string)
    requires pat != []
    ensures Replace(s, pat, pat) == s
    decreases |s|
  {
    if |s| >= |pat| {
      if s[..|pat|] == pat {
        ReplaceSelf(s[|pat|..], pat);
        assert s == s[..|pat|] + s[|pat|..];
      } else {
        ReplaceSelf(s[1..], pat);
      }
    }
  }

  /** An occurrence at the front is replaced and scanning goes on after it:
      the replacement text itself is not rescanned. */
  lemma ReplaceFront(pat: string, rest: string, rep: string)
    requires pat != []
    ensures Replace(pat + rest, pat, rep) == rep + Replace(rest, pat, rep)
  {
    assert (pat + rest)[..|pat|] == pat;
    assert (pat + rest)[|pat|..] == rest;
  }

  /** Overlapping occurrences: only the leftmost is replaced, so "aaa"
      with "aa" replaced by "b" gives "ba". */
  lemma ReplaceNoOverlap()
    ensures Replace("aaa", "aa", "b") == "ba"
  {
    ReplaceFront("aa", "a", "b");
  }

  /** Replacing a character by one that does not occur, and back, gives
      the text back. */
  lemma {:induction false} ReplaceCharRoundTrip(s: string, a: char, b: char)
    requires b !in s
    ensures Replace(Replace(s, [a], [b]), [b], [a]) == s
    decreases |s|
  {
    if s != [] {
      assert s[1..] == s[1..] && forall c :: c in s[1..] ==> c in s;
      assert s[0] in s;
      ReplaceCharRoundTrip(s[1..], a, b);
      var t := Replace(s[1..], [a], [b]);
      if s[0] == a {
        assert Replace(s, [a], [b]) == [b] + t;
        ReplaceFront([b], t, [a]);
      } else {
        assert s[..1] == [s[0]];
        assert Replace(s, [a], [b]) == [s[0]] + t;
        assert ([s[0]] + t)[..1] == [s[0]] && ([s[0]] + t)[1..] == t;
      }
    }
  }

  /** An entry's value with the user's name filled in. */
  function UserValue(value: string, userName: Option<string>): string
  {
    ReplaceAll(Some(value), Some(UserDescriptor), userName).value
  }

  /** An entry that sets the given key: the key matches and a value is
      present. */
  predicate Sets(entry: seq<string>, key: string)
  {
    |entry| > 1 && entry[0] == key
  }

  /** The value a field holding `current` has after one entry. */
  function Applied(entry: seq<string>, key: string, userName: Option<string>, current: string): string
  {
    if Sets(entry, key) then UserValue(entry[1], userName) else current
  }

  /** The value a key has after the entries are applied in order to a field
      holding `current`. */
  function LoadedValue(entries: seq<seq<string>>, key: string, userName: Option<string>, current: string): string
  {
    if entries == [] then current
    else
      Applied(entries[|entries| - 1], key, userName, LoadedValue(entries[..|entries| - 1], key, userName, current))
  }

  lemma LoadedStepKey(entries: seq<seq<string>>, i: nat, key: string, userName: Option<string>, current: string)
    requires i < |entries|
    ensures LoadedValue(entries[..i + 1], key, userName, current) ==
            Applied(entries[i], key, userName, LoadedValue(entries[..i], key, userName, current))
  {
    var pre := entries[..i + 1];
    assert pre[..|pre| - 1] == entries[..i];
    assert pre[|pre| - 1] == entries[i];
  }

  /** The last entry that sets the key decides its value. */
  lemma {:induction false} LastEntryWins(entries: seq<seq<string>>, key: string, userName: Option<string>,
                                          current: string, i: nat)
    requires i < |entries| && Sets(entries[i], key)
    requires forall j :: i < j < |entries| ==> !Sets(entries[j], key)
    ensures LoadedValue(entries, key, userName, current) == UserValue(entries[i][1], userName)
  {
    if i < |entries| - 1 {
      LastEntryWins(entries[..|entries| - 1], key, userName, current, i);
    }
  }

  /** A key no entry sets keeps its value. */
  lemma {:induction false} UnsetKeeps(entries: seq<seq<string>>, key: string, userName: Option<string>,
                                       current: string)
    requires forall j :: 0 <= j < |entries| ==> !Sets(entries[j], key)
    ensures LoadedValue(entries, key, userName, current) == current
  {
    if entries != [] {
      UnsetKeeps(entries[..|entries| - 1], key, userName, current);
    }
  }

  class BaseData {
    var dataId: string
    var dataName: string

    /** A new record: a fresh GUID and the name "New Data". */
    constructor(guid: string)
      ensures dataId == guid && dataName == "New Data"
    {
      dataId := guid;
      dataName := "New Data";
    }

    /** `LoadFromResourcePath`: every "dataName" entry with a value sets
        the name, with the user's name filled in. Each entry needs a key
        (`entry[0]`). */
    method LoadFromResourcePath(parsedData: seq<seq<string>>, userName: Option<string>)
      requires forall k :: 0 <= k < |parsedData| ==> |parsedData[k]| >= 1
      modifies this
      ensures dataName == LoadedValue(parsedData, "dataName", userName, old(dataName))
      ensures dataId == old(dataId)
    {
      var i := 0;
      while i < |parsedData|
        invariant 0 <= i <= |parsedData|
        invariant dataName == LoadedValue(parsedData[..i], "dataName", userName, old(dataName))
        invariant dataId == old(dataId)
      {
        LoadedStepKey(parsedData, i, "dataName", userName, old(dataName));
        var entry := parsedData[i];
        if entry[0] == "dataName" {
          dataName := if |entry| > 1 then ReplaceAll(Some(entry[1]), Some(UserDescriptor), userName).value else dataName;
        }
        i := i + 1;
      }
      assert parsedData[..i] == parsedData;
    }
  }
}
