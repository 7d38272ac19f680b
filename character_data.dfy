/** CharacterData: a story character read from a data file. The loader
    first runs the base loader (the name), then sets each of the ten
    character fields from the entries with its key, the last such entry
    winning. The base record is held as `base`. */
module CharacterData {
  import opened Wrappers
  import opened BaseData

  /** The keys of the ten character fields. */
  const KeyAge: string := "characterAge"
  const KeyGender: string := "characterGender"
  const KeyHeight: string := "characterHeight"
  const KeyAppearance: string := "characterAppearance"
  const KeyRelationship: string := "characterRelationship"
  const KeyPersonality: string := "characterPersonality"
  const KeyLikes: string := "characterLikes"
  const KeyDislikes: string := "characterDislikes"
  const KeySpecialTraits: string := "characterSpecialTraits"
  const KeyGoals: string := "characterGoals"

  /** The ten keys are distinct, so each entry sets at most one field. */
  lemma KeysDistinct()
    ensures KeyAge != KeyGender && KeyAge != KeyHeight && KeyAge != KeyAppearance
    ensures KeyAge != KeyRelationship && KeyAge != KeyPersonality && KeyAge != KeyLikes
    ensures KeyAge != KeyDislikes && KeyAge != KeySpecialTraits && KeyAge != KeyGoals
    ensures KeyGender != KeyHeight && KeyGender != KeyAppearance && KeyGender != KeyRelationship
    ensures KeyGender != KeyPersonality && KeyGender != KeyLikes && KeyGender != KeyDislikes
    ensures KeyGender != KeySpecialTraits && KeyGender != KeyGoals && KeyHeight != KeyAppearance
    ensures KeyHeight != KeyRelationship && KeyHeight != KeyPersonality && KeyHeight != KeyLikes
    ensures KeyHeight != KeyDislikes && KeyHeight != KeySpecialTraits && KeyHeight != KeyGoals
    ensures KeyAppearance != KeyRelationship && KeyAppearance != KeyPersonality && KeyAppearance != KeyLikes
    ensures KeyAppearance != KeyDislikes && KeyAppearance != KeySpecialTraits && KeyAppearance != KeyGoals
    ensures KeyRelationship != KeyPersonality && KeyRelationship != KeyLikes && KeyRelationship != KeyDislikes
    ensures KeyRelationship != KeySpecialTraits && KeyRelationship != KeyGoals && KeyPersonality != KeyLikes
    ensures KeyPersonality != KeyDislikes && KeyPersonality != KeySpecialTraits && KeyPersonality != KeyGoals
    ensures KeyLikes != KeyDislikes && KeyLikes != KeySpecialTraits && KeyLikes != KeyGoals
    ensures KeyDislikes != KeySpecialTraits && KeyDislikes != KeyGoals && KeySpecialTraits != KeyGoals
  {
    assert |KeyAge| == 12 && KeyAge[9] == 'A';
    assert |KeyGender| == 15 && KeyGender[9] == 'G';
    assert |KeyHeight| == 15 && KeyHeight[9] == 'H';
    assert |KeyAppearance| == 19 && KeyAppearance[9] == 'A';
    assert |KeyRelationship| == 21 && KeyRelationship[9] == 'R';
    assert |KeyPersonality| == 20 && KeyPersonality[9] == 'P';
    assert |KeyLikes| == 14 && KeyLikes[9] == 'L';
    assert |KeyDislikes| == 17 && KeyDislikes[9] == 'D';
    assert |KeySpecialTraits| == 22 && KeySpecialTraits[9] == 'S';
    assert |KeyGoals| == 14 && KeyGoals[9] == 'G';
  }

  class CharacterData {
    const base: BaseData
    var characterAge: string
    var characterGender: string
    var characterHeight: string
    var characterAppearance: string
    var characterRelationship: string
    var characterPersonality: string
    var characterLikes: string
    var characterDislikes: string
    var characterSpecialTraits: string
    var characterGoals: string

    /** A new character with the default description. */
    constructor(guid: string)
      ensures fresh(base) && base.dataId == guid && base.dataName == "New Data"
      ensures characterAge == "25" && characterGender == "Female"
      ensures characterHeight == "5 feet 7 inches"
      ensures characterAppearance == "Long brown hair, green eyes, athletic build"
      ensures characterRelationship == "Friendly and supportive towards others"
      ensures characterPersonality == "Optimistic, curious, and compassionate"
      ensures characterLikes == "Reading, hiking, and cooking"
      ensures characterDislikes == "Loud noises and crowds"
      ensures characterSpecialTraits == "Highly empathetic and a quick learner"
      ensures characterGoals == "To help others and continuously improve herself"
    {
      base := new BaseData(guid);
      characterAge := "25";
      characterGender := "Female";
      characterHeight := "5 feet 7 inches";
      characterAppearance := "Long brown hair, green eyes, athletic build";
      characterRelationship := "Friendly and supportive towards others";
      characterPersonality := "Optimistic, curious, and compassionate";
      characterLikes := "Reading, hiking, and cooking";
      characterDislikes := "Loud noises and crowds";
      characterSpecialTraits := "Highly empathetic and a quick learner";
      characterGoals := "To help others and continuously improve herself";
    }

    /** One entry of the loader's switch: the entry's key selects the one
        field it sets, if it carries a value; other keys change nothing. */
    method ApplyEntry(entry: seq<string>, userName: Option<string>)
      requires |entry| >= 1
      modifies this
      ensures characterAge == Applied(entry, KeyAge, userName, old(characterAge))
      ensures characterGender == Applied(entry, KeyGender, userName, old(characterGender))
      ensures characterHeight == Applied(entry, KeyHeight, userName, old(characterHeight))
      ensures characterAppearance == Applied(entry, KeyAppearance, userName, old(characterAppearance))
      ensures characterRelationship == Applied(entry, KeyRelationship, userName, old(characterRelationship))
      ensures characterPersonality == Applied(entry, KeyPersonality, userName, old(characterPersonality))
      ensures characterLikes == Applied(entry, KeyLikes, userName, old(characterLikes))
      ensures characterDislikes == Applied(entry, KeyDislikes, userName, old(characterDislikes))
      ensures characterSpecialTraits == Applied(entry, KeySpecialTraits, userName, old(characterSpecialTraits))
      ensures characterGoals == Applied(entry, KeyGoals, userName, old(characterGoals))
    {
      KeysDistinct();
      var key := entry[0];
      if key == KeyAge {
        characterAge := if |entry| > 1 then UserValue(entry[1], userName) else characterAge;
      } else if key == KeyGender {
        characterGender := if |entry| > 1 then UserValue(entry[1], userName) else characterGender;
      } else if key == KeyHeight {
        characterHeight := if |entry| > 1 then UserValue(entry[1], userName) else characterHeight;
      } else if key == KeyAppearance {
        characterAppearance := if |entry| > 1 then UserValue(entry[1], userName) else characterAppearance;
      } else if key == KeyRelationship {
        characterRelationship := if |entry| > 1 then UserValue(entry[1], userName) else characterRelationship;
      } else if key == KeyPersonality {
        characterPersonality := if |entry| > 1 then UserValue(entry[1], userName) else characterPersonality;
      } else if key == KeyLikes {
        characterLikes := if |entry| > 1 then UserValue(entry[1], userName) else characterLikes;
      } else if key == KeyDislikes {
        characterDislikes := if |entry| > 1 then UserValue(entry[1], userName) else characterDislikes;
      } else if key == KeySpecialTraits {
        characterSpecialTraits := if |entry| > 1 then UserValue(entry[1], userName) else characterSpecialTraits;
      } else if key == KeyGoals {
        characterGoals := if |entry| > 1 then UserValue(entry[1], userName) else characterGoals;
      }
    }

    /** `LoadFromResourcePath`: the base loader, then one pass in which each
        key sets only its own field. */
    method LoadFromResourcePath(parsedData: seq<seq<string>>, userName: Option<string>)
      requires forall k :: 0 <= k < |parsedData| ==> |parsedData[k]| >= 1
      modifies this, base
      ensures base.dataName == LoadedValue(parsedData, "dataName", userName, old(base.dataName))
      ensures base.dataId == old(base.dataId)
      ensures characterAge == LoadedValue(parsedData, KeyAge, userName, old(characterAge))
      ensures characterGender == LoadedValue(parsedData, KeyGender, userName, old(characterGender))
      ensures characterHeight == LoadedValue(parsedData, KeyHeight, userName, old(characterHeight))
      ensures characterAppearance == LoadedValue(parsedData, KeyAppearance, userName, old(characterAppearance))
      ensures characterRelationship == LoadedValue(parsedData, KeyRelationship, userName, old(characterRelationship))
      ensures characterPersonality == LoadedValue(parsedData, KeyPersonality, userName, old(characterPersonality))
      ensures characterLikes == LoadedValue(parsedData, KeyLikes, userName, old(characterLikes))
      ensures characterDislikes == LoadedValue(parsedData, KeyDislikes, userName, old(characterDislikes))
      ensures characterSpecialTraits == LoadedValue(parsedData, KeySpecialTraits, userName, old(characterSpecialTraits))
      ensures characterGoals == LoadedValue(parsedData, KeyGoals, userName, old(characterGoals))
    {
      base.LoadFromResourcePath(parsedData, userName);
      var i := 0;
      while i < |parsedData|
        invariant 0 <= i <= |parsedData|
        invariant base.dataName == LoadedValue(parsedData, "dataName", userName, old(base.dataName))
        invariant base.dataId == old(base.dataId)
        invariant characterAge == LoadedValue(parsedData[..i], KeyAge, userName, old(characterAge))
        invariant characterGender == LoadedValue(parsedData[..i], KeyGender, userName, old(characterGender))
        invariant characterHeight == LoadedValue(parsedData[..i], KeyHeight, userName, old(characterHeight))
        invariant characterAppearance == LoadedValue(parsedData[..i], KeyAppearance, userName, old(characterAppearance))
        invariant characterRelationship == LoadedValue(parsedData[..i], KeyRelationship, userName, old(characterRelationship))
        invariant characterPersonality == LoadedValue(parsedData[..i], KeyPersonality, userName, old(characterPersonality))
        invariant characterLikes == LoadedValue(parsedData[..i], KeyLikes, userName, old(characterLikes))
        invariant characterDislikes == LoadedValue(parsedData[..i], KeyDislikes, userName, old(characterDislikes))
        invariant characterSpecialTraits == LoadedValue(parsedData[..i], KeySpecialTraits, userName, old(characterSpecialTraits))
        invariant characterGoals == LoadedValue(parsedData[..i], KeyGoals, userName, old(characterGoals))
      {
        LoadedStepKey(parsedData, i, KeyAge, userName, old(characterAge));
        LoadedStepKey(parsedData, i, KeyGender, userName, old(characterGender));
        LoadedStepKey(parsedData, i, KeyHeight, userName, old(characterHeight));
        LoadedStepKey(parsedData, i, KeyAppearance, userName, old(characterAppearance));
        LoadedStepKey(parsedData, i, KeyRelationship, userName, old(characterRelationship));
        LoadedStepKey(parsedData, i, KeyPersonality, userName, old(characterPersonality));
        LoadedStepKey(parsedData, i, KeyLikes, userName, old(characterLikes));
        LoadedStepKey(parsedData, i, KeyDislikes, userName, old(characterDislikes));
        LoadedStepKey(parsedData, i, KeySpecialTraits, userName, old(characterSpecialTraits));
        LoadedStepKey(parsedData, i, KeyGoals, userName, old(characterGoals));
        ApplyEntry(parsedData[i], userName);
        i := i + 1;
      }
      assert parsedData[..i] == parsedData;
    }
  }
}
