/** LoadSaveStoryUtils: the save-file naming of a story. A story title is
    turned into a safe file name by masking every character the platform
    forbids in file names with '%' and trimming; the save file is
    `saves/<safe title>_Save_<player name>.es3`. The platform's set of
    invalid file-name characters (`Path.GetInvalidFileNameChars`) is a
    parameter. A null string is `None`. */
module LoadSaveStoryUtils {
  import opened Wrappers
  import opened Text

  const ES3SavePath: string := "saves/"

  function MaskChar(c: char, invalid: set<char>): char
  {
    if c in invalid then '%' else c
  }

  /** Every invalid character replaced by one '%', everything else kept in
      place. */
  function Mask(s: string, invalid: set<char>): (r: string)
    ensures |r| == |s|
    ensures forall i {:trigger r[i]} :: 0 <= i < |s| ==> r[i] == MaskChar(s[i], invalid)
  {
    if s == [] then [] else Mask(s[..|s| - 1], invalid) + [MaskChar(s[|s| - 1], invalid)]
  }

  /** The name `ToSafeFilename` produces. */
  function SafeName(input: Option<string>, invalid: set<char>): string
  {
    if input.None? || AllWhiteSpace(input.value) then "%"
    else
      var t := Trim(Mask(input.value, invalid));
      if t == [] then "%" else t
  }

  /** `ToSafeFilename`: one pass over the title building the masked string,
      then a trim; null, empty or blank titles give "%". */
  method ToSafeFilename(input: Option<string>, invalid: set<char>) returns (r: string)
    ensures r == SafeName(input, invalid)
    ensures '%' !in invalid ==> r != [] && forall c :: c in r ==> c !in invalid
  {
    if input.None? || AllWhiteSpace(input.value) {
      return "%";
    }
    var s := input.value;
    var sb := "";
    var i := 0;
    while i < |s|
      invariant 0 <= i <= |s|
      invariant sb == Mask(s[..i], invalid)
    {
      assert s[..i + 1][..i] == s[..i];
      if s[i] in invalid {
        sb := sb + ['%'];
      } else {
        sb := sb + [s[i]];
      }
      i := i + 1;
    }
    assert s[..i] == s;
    r := Trim(sb);
    if |r| == 0 {
      r := "%";
    }
    if '%' !in invalid {
      SafeNameIsSafe(input, invalid);
    }
  }

  /** A safe name is never empty and never contains an invalid character
      (the mask character '%' being valid). */
  lemma SafeNameIsSafe(input: Option<string>, invalid: set<char>)
    requires '%' !in invalid
    ensures SafeName(input, invalid) != []
    ensures forall c :: c in SafeName(input, invalid) ==> c !in invalid
  {
    if !(input.None? || AllWhiteSpace(input.value)) {
      var m := Mask(input.value, invalid);
      TrimSubset(m);
      forall c | c in m ensures c !in invalid {
        var k :| 0 <= k < |m| && m[k] == c;
        assert c == MaskChar(input.value[k], invalid);
      }
    }
  }

  /** Blank titles all collapse to "%". */
  lemma BlankTitleIsPercent(input: Option<string>, invalid: set<char>)
    requires input.None? || Trim(input.value) == []
    ensures SafeName(input, invalid) == "%"
  {
    if input.Some? {
      TrimEmptyIffWhiteSpace(input.value);
    }
  }

  /** Masking keeps a title that is not blank from trimming to nothing,
      because the mask character '%' is not whitespace. */
  lemma MaskedTrimNonEmpty(s: string, invalid: set<char>)
    requires !AllWhiteSpace(s)
    ensures Trim(Mask(s, invalid)) != []
  {
    var m := Mask(s, invalid);
    assert !AllWhiteSpace(m) by {
      var i :| 0 <= i < |s| && !IsWhiteSpace(s[i]);
      assert m[i] == '%' || m[i] == s[i];
    }
    TrimEmptyIffWhiteSpace(m);
  }

  /** A title that is not blank keeps its masked, trimmed text: the final
      "%" fallback is never taken. */
  lemma NonBlankTitleIsMaskedTrim(s: string, invalid: set<char>)
    requires !AllWhiteSpace(s)
    ensures SafeName(Some(s), invalid) == Trim(Mask(s, invalid))
  {
    MaskedTrimNonEmpty(s, invalid);
  }

  /** A safe name is never empty and starts and ends with a character
      that is not whitespace. */
  lemma SafeNameEnds(input: Option<string>, invalid: set<char>)
    ensures SafeName(input, invalid) != []
    ensures !IsWhiteSpace(SafeName(input, invalid)[0])
    ensures !IsWhiteSpace(SafeName(input, invalid)[|SafeName(input, invalid)| - 1])
  {
    if !(input.None? || AllWhiteSpace(input.value)) {
      TrimShape(Mask(input.value, invalid));
    }
  }

  /** Masking a string with no invalid character changes nothing. */
  lemma MaskIdentity(s: string, invalid: set<char>)
    requires forall c :: c in s ==> c !in invalid
    ensures Mask(s, invalid) == s
  {
    forall i | 0 <= i < |s| ensures Mask(s, invalid)[i] == s[i] {
      assert s[i] in s;
    }
  }

  /** Applying `ToSafeFilename` to a safe name changes nothing. */
  lemma SafeNameIdempotent(input: Option<string>, invalid: set<char>)
    requires '%' !in invalid
    ensures SafeName(Some(SafeName(input, invalid)), invalid) == SafeName(input, invalid)
  {
    var r := SafeName(input, invalid);
    SafeNameIsSafe(input, invalid);
    SafeNameEnds(input, invalid);
    MaskIdentity(r, invalid);
    assert !AllWhiteSpace(r) by {
      assert !IsWhiteSpace(r[0]);
    }
    NonBlankTitleIsMaskedTrim(r, invalid);
  }

  /** `GetBaseSaveFileName`: the save path, the safe title, "_Save_", the
      player's name as is, and the ".es3" extension. */
  method GetBaseSaveFileName(title: Option<string>, playerName: string, invalid: set<char>)
    returns (r: string)
    ensures StartsWith(r, ES3SavePath)
    ensures |r| == |ES3SavePath| + |SafeName(title, invalid)| + |playerName| + 10
    ensures r[|ES3SavePath|..|ES3SavePath| + |SafeName(title, invalid)|] == SafeName(title, invalid)
    ensures r[|ES3SavePath| + |SafeName(title, invalid)|..] == "_Save_" + playerName + ".es3"
  {
    var safe := ToSafeFilename(title, invalid);
    var rest := "_Save_" + playerName + ".es3";
    r := ES3SavePath + safe + "_Save_" + playerName + ".es3";
    assert r == ES3SavePath + safe + rest;
    assert r[..|ES3SavePath|] == ES3SavePath;
    assert r[|ES3SavePath|..|ES3SavePath| + |safe|] == safe;
    assert r[|ES3SavePath| + |safe|..] == rest;
  }

  /** Distinct titles can share a save file: with '/' invalid, "a/b" and
      "a%b" both become "a%b". */
  lemma TitlesCanCollide()
    ensures SafeName(Some("a/b"), {'/'}) == SafeName(Some("a%b"), {'/'}) == "a%b"
  {
    var t := "a%b";
    assert !IsWhiteSpace(t[0]) && !IsWhiteSpace(t[2]);
    assert Mask("a/b", {'/'}) == t by {
      var m := Mask("a/b", {'/'});
      assert m[0] == t[0] && m[1] == t[1] && m[2] == t[2];
    }
    MaskIdentity(t, {'/'});
    NonBlankTitleIsMaskedTrim("a/b", {'/'});
    NonBlankTitleIsMaskedTrim(t, {'/'});
  }
}
