// A blackboard: a dictionary from names to values of any type, with
// typed lookup and a flat save format holding its string entries.

module Blackboard {

  /** The values a blackboard can hold. `Null` is the null reference, which
    * passes no type test; `Obj` is a reference to any other object. */
  datatype Value = Null | Str(s: string) | Int(i: int) | Bool(b: bool) | Float(f: real) | Obj(id: nat)

  /** The type argument of the generic accessors. `ObjectKind` is `object`. */
  datatype Kind = StringKind | IntKind | BoolKind | FloatKind | ObjectKind

  /** The type test `value is T`: never true of null. */
  predicate IsKind(v: Value, k: Kind)
  {
    match k
    case StringKind => v.Str?
    case IntKind => v.Int?
    case BoolKind => v.Bool?
    case FloatKind => v.Float?
    case ObjectKind => !v.Null?
  }

  /** `default(T)`: zero for value types, null for reference types. */
  function Default(k: Kind): (r: Value)
    ensures k == StringKind || k == ObjectKind <==> r.Null?
    ensures r.Null? || IsKind(r, k)
  {
    match k
    case IntKind => Int(0)
    case BoolKind => Bool(false)
    case FloatKind => Float(0.0)
    case StringKind => Null
    case ObjectKind => Null
  }

  /** The string-valued entries of a dictionary. */
  function StringEntries(m: map<string, Value>): (r: map<string, Value>)
    ensures forall k :: k in r <==> k in m && m[k].Str?
    ensures forall k :: k in r ==> r[k] == m[k]
  {
    map k | k in m && m[k].Str? :: m[k]
  }

  /** The string-valued entries of `m` among `keys`. */
  function StringsAmong(m: map<string, Value>, keys: set<string>): map<string, Value>
  {
    map k | k in keys && k in m && m[k].Str? :: m[k]
  }

  lemma StringsAmongStep(m: map<string, Value>, keys: set<string>, key: string)
    requires key in m
    ensures StringsAmong(m, keys + {key}) ==
      if m[key].Str? then StringsAmong(m, keys)[key := m[key]] else StringsAmong(m, keys)
  {
  }

  /** Stores the pairs of an even-length list in order: each even element is
    * a key, the element after it its value, and a later pair overwrites an
    * earlier one with the same key. */
  function Apply(m: map<string, Value>, data: seq<string>): (r: map<string, Value>)
    requires |data| % 2 == 0
    ensures m.Keys <= r.Keys
  {
    if |data| == 0 then m
    else Apply(m, data[..|data| - 2])[data[|data| - 2] := Str(data[|data| - 1])]
  }

  /** Every pair of the list is an entry of `m`. */
  predicate PairsStored(data: seq<string>, m: map<string, Value>)
  {
    forall i :: 0 <= i < |data| - 1 && i % 2 == 0 ==> data[i] in m && m[data[i]] == Str(data[i + 1])
  }

  lemma PairsStoredStep(data: seq<string>, m: map<string, Value>, key: string, v: string)
    requires PairsStored(data, m) && |data| % 2 == 0 && key in m && m[key] == Str(v)
    ensures PairsStored(data + [key, v], m)
  {
    var next := data + [key, v];
    forall i | 0 <= i < |next| - 1 && i % 2 == 0
      ensures next[i] in m && m[next[i]] == Str(next[i + 1])
    {
      if i < |data| {
        assert next[i] == data[i] && next[i + 1] == data[i + 1];
      }
    }
  }

  /** Loading pairs over a dictionary is the dictionary updated with what
    * loading them into an empty one gives. */
  lemma {:induction false} ApplyOver(m: map<string, Value>, data: seq<string>)
    requires |data| % 2 == 0
    ensures Apply(m, data) == m + Apply(map[], data)
  {
    if |data| > 0 {
      ApplyOver(m, data[..|data| - 2]);
    }
  }

  /** Loading a dictionary's own string entries into it changes nothing. */
  lemma ReloadIsIdentity(m: map<string, Value>, data: seq<string>)
    requires |data| % 2 == 0 && Apply(map[], data) == StringEntries(m)
    ensures Apply(m, data) == m
  {
    ApplyOver(m, data);
  }

  /** A pair is overwritten only by a later pair with the same key. */
  lemma {:induction false} LaterPairWins(m: map<string, Value>, d: seq<string>, k: string, v: string, rest: seq<string>)
    requires |d| % 2 == 0 && |rest| % 2 == 0
    requires forall i :: 0 <= i < |rest| && i % 2 == 0 ==> rest[i] != k
    ensures var r := Apply(m, d + [k, v] + rest); k in r && r[k] == Str(v)
  {
    var all := d + [k, v] + rest;
    if |rest| == 0 {
      assert all[..|all| - 2] == d;
    } else {
      var front := rest[..|rest| - 2];
      assert all[..|all| - 2] == d + [k, v] + front;
      LaterPairWins(m, d, k, v, front);
    }
  }

  class AIBlackboard {
    var dataMap: map<string, Value>

    constructor ()
      ensures dataMap == map[]
    {
      dataMap := map[];
    }

    function HasKey(key: string): (r: bool)
      reads this`dataMap
      ensures r <==> key in dataMap
    {
      key in dataMap
    }

    /** Removes `key`; reports whether there was one to remove. */
    method RemoveKey(key: string) returns (removed: bool)
      modifies this`dataMap
      ensures removed <==> key in old(dataMap)
      ensures dataMap == old(dataMap) - {key}
    {
      if key in dataMap {
        dataMap := dataMap - {key};
        return true;
      }
      return false;
    }

    /** Whether `key` holds a value of the type `k`. */
    function HasValue(key: string, k: Kind): (r: bool)
      reads this`dataMap
      ensures r <==> key in dataMap && IsKind(dataMap[key], k)
    {
      key in dataMap && IsKind(dataMap[key], k)
    }

    /** The value at `key` when it has the type `k`, otherwise that type's default. */
    function GetValue(key: string, k: Kind): (r: Value)
      reads this`dataMap
      ensures HasValue(key, k) ==> r == dataMap[key] && IsKind(r, k)
      ensures !HasValue(key, k) ==> r == Default(k)
    {
      if !HasKey(key) || !HasValue(key, k) then Default(k) else dataMap[key]
    }

    /** Inserts or overwrites one entry. */
    method SetValue(key: string, value: Value)
      modifies this`dataMap
      ensures dataMap == old(dataMap)[key := value]
    {
      dataMap := dataMap[key := value];
    }

    /** The string entries as a flat key, value, key, value… list, in the
      * dictionary's enumeration order (left unspecified here). */
    method GetSaveData() returns (data: seq<string>)
      ensures |data| % 2 == 0
      ensures Apply(map[], data) == StringEntries(dataMap)
      ensures PairsStored(data, dataMap)
    {
      data := [];
      var todo := dataMap.Keys;
      ghost var done: set<string> := {};
      while todo != {}
        invariant todo <= dataMap.Keys && todo + done == dataMap.Keys && |data| % 2 == 0
        invariant Apply(map[], data) == StringsAmong(dataMap, done)
        invariant PairsStored(data, dataMap)
        decreases todo
      {
        var key :| key in todo;
        var val := dataMap[key];
        StringsAmongStep(dataMap, done, key);
        if val.Str? {
          var next := data + [key, val.s];
          assert next[..|next| - 2] == data;
          PairsStoredStep(data, dataMap, key, val.s);
          data := next;
        }
        todo := todo - {key};
        done := done + {key};
      }
      assert StringsAmong(dataMap, done) == StringEntries(dataMap);
    }

    /** Stores the pairs of `data` in order. On an odd-length list the pairs
      * before the last element are stored and reading past the end fails. */
    method LoadFromData(data: seq<string>) returns (ok: bool)
      modifies this`dataMap
      ensures ok <==> |data| % 2 == 0
      ensures dataMap == Apply(old(dataMap), data[..|data| - |data| % 2])
    {
      var i := 0;
      while i < |data|
        invariant 0 <= i <= |data| && i % 2 == 0
        invariant dataMap == Apply(old(dataMap), data[..i])
      {
        if i + 1 >= |data| {
          return false;
        }
        assert data[..i + 2][..i] == data[..i];
        dataMap := dataMap[data[i] := Str(data[i + 1])];
        i := i + 2;
      }
      assert data[..i] == data;
      return true;
    }
  }

  /** Saving a blackboard and loading the list into an empty one gives
    * exactly its string entries; loading it back into the same blackboard
    * changes nothing. */
  method SaveLoadRoundTrip(source: AIBlackboard) returns (copy: AIBlackboard)
    modifies source
    ensures fresh(copy) && copy.dataMap == StringEntries(source.dataMap)
    ensures source.dataMap == old(source.dataMap)
  {
    var data := source.GetSaveData();
    copy := new AIBlackboard();
    var ok := copy.LoadFromData(data);
    assert data[..|data|] == data;
    ReloadIsIdentity(source.dataMap, data);
    ok := source.LoadFromData(data);
  }
}
