/** Finding a field by its key: a hint says which field is likely to come next. */
module FieldLookups {
  import opened Bytes

  /** A field's key with what is kept of it for quick comparison. */
  datatype KeyedField = KeyedField(key: bytes, len: nat, first: byte, last: byte)

  ghost predicate Consistent(f: KeyedField) {
    f.len == |f.key| && (f.key != [] ==> f.first == f.key[0] && f.last == f.key[|f.key| - 1])
  }

  ghost predicate AllConsistent(fields: seq<KeyedField>) {
    forall i :: 0 <= i < |fields| ==> Consistent(fields[i])
  }

  /** The length, the first and the last byte, and then the bytes between. */
  predicate Matches(f: KeyedField, key: bytes) {
    if f.len != |key| then false
    else if |key| == 0 then true
    else if f.first != key[0] || f.last != key[|key| - 1] then false
    else if |key| <= 2 then true
    else |f.key| == |key| && f.key[1..|key| - 1] == key[1..|key| - 1]
  }

  lemma MatchesMeansEqual(f: KeyedField, key: bytes)
    requires Consistent(f)
    ensures Matches(f, key) <==> f.key == key
  {
    if Matches(f, key) && 0 < |key| {
      forall i | 0 <= i < |key| ensures f.key[i] == key[i] {
        if 0 < i < |key| - 1 {
          assert f.key[1..|key| - 1][i - 1] == key[1..|key| - 1][i - 1];
        }
      }
    }
  }

  /** The first field with the key, or the number of fields. */
  ghost function LinearSearch(fields: seq<KeyedField>, key: bytes): (r: nat)
    ensures r <= |fields| && (forall i :: 0 <= i < r ==> fields[i].key != key)
    ensures r < |fields| ==> fields[r].key == key
  {
    if fields == [] || fields[0].key == key then 0 else 1 + LinearSearch(fields[1..], key)
  }

  /** What a lookup with a hint answers. */
  ghost function HintedSearch(fields: seq<KeyedField>, hint: nat, key: bytes): nat {
    if key != [] && hint < |fields| && fields[hint].key == key then hint else LinearSearch(fields, key)
  }

  /** Where the hint stands after a lookup. */
  ghost function NextHint(fields: seq<KeyedField>, hint: nat, found: nat): nat {
    if found < |fields| then found + 1 else hint
  }

  /** The answers to one lookup after another. */
  ghost function HintedLookups(fields: seq<KeyedField>, hint: nat, keys: seq<bytes>): (r: seq<nat>)
    ensures |r| == |keys|
    decreases |keys|
  {
    if keys == [] then []
    else
      var found := HintedSearch(fields, hint, keys[0]);
      [found] + HintedLookups(fields, NextHint(fields, hint, found), keys[1..])
  }

  ghost function LinearLookups(fields: seq<KeyedField>, keys: seq<bytes>): (r: seq<nat>)
    ensures |r| == |keys|
  {
    if keys == [] then [] else [LinearSearch(fields, keys[0])] + LinearLookups(fields, keys[1..])
  }

  ghost predicate DistinctKeys(fields: seq<KeyedField>) {
    forall i, j :: 0 <= i < j < |fields| && fields[i].key != [] ==> fields[i].key != fields[j].key
  }

  class Frame {
    var nextFieldHint: nat

    constructor ()
      ensures nextFieldHint == 0
    {
      nextFieldHint := 0;
    }

    /** The index of the field with the key, or the number of fields. */
    method FindField(fields: seq<KeyedField>, key: bytes) returns (found: nat)
      requires AllConsistent(fields)
      modifies this
      ensures found == HintedSearch(fields, old(nextFieldHint), key)
      ensures nextFieldHint == NextHint(fields, old(nextFieldHint), found)
    {
      if |key| != 0 && nextFieldHint < |fields| {
        MatchesMeansEqual(fields[nextFieldHint], key);
        if Matches(fields[nextFieldHint], key) {
          found := nextFieldHint;
          nextFieldHint := nextFieldHint + 1;
          return;
        }
      }
      found := 0;
      while found < |fields|
        invariant 0 <= found <= |fields| && forall i :: 0 <= i < found ==> fields[i].key != key
        invariant nextFieldHint == old(nextFieldHint)
      {
        MatchesMeansEqual(fields[found], key);
        if Matches(fields[found], key) {
          nextFieldHint := found + 1;
          return;
        }
        found := found + 1;
      }
    }
  }

  lemma HintIrrelevant(fields: seq<KeyedField>, hint: nat, key: bytes)
    requires DistinctKeys(fields)
    ensures HintedSearch(fields, hint, key) == LinearSearch(fields, key)
  {
  }

  /** With any hint a lookup answers what a linear search does, exactly when no two
      fields share a key that is not empty. */
  lemma HintsAreSafeExactlyForDistinctKeys(fields: seq<KeyedField>)
    ensures (forall hint: nat, key: bytes :: HintedSearch(fields, hint, key) == LinearSearch(fields, key)) <==> DistinctKeys(fields)
  {
    if DistinctKeys(fields) {
      forall hint: nat, key: bytes ensures HintedSearch(fields, hint, key) == LinearSearch(fields, key) {
        HintIrrelevant(fields, hint, key);
      }
    } else {
      var i, j :| 0 <= i < j < |fields| && fields[i].key != [] && fields[i].key == fields[j].key;
      assert LinearSearch(fields, fields[j].key) <= i;
      assert HintedSearch(fields, j, fields[j].key) == j;
    }
  }

  // ----- Lookups from the start -----

  /** Field `j` is the first with its key. */
  ghost predicate IsFirst(fields: seq<KeyedField>, j: nat) {
    j < |fields| && forall i :: 0 <= i < j ==> fields[i].key != fields[j].key
  }

  /** Field `j` repeats a key that is not empty, right behind the first field with
      some key: looking that key up leaves the hint on the repetition. */
  ghost predicate HintedRepetition(fields: seq<KeyedField>, j: nat) {
    0 < j < |fields| && fields[j].key != [] && !IsFirst(fields, j) && IsFirst(fields, j - 1)
  }

  /** A hint left by lookups that found the first fields with their keys. */
  ghost predicate Reached(fields: seq<KeyedField>, hint: nat) {
    hint == 0 || IsFirst(fields, hint - 1)
  }

  lemma {:induction false} LookupsAgree(fields: seq<KeyedField>, hint: nat, keys: seq<bytes>)
    requires Reached(fields, hint) && forall j: nat :: !HintedRepetition(fields, j)
    ensures HintedLookups(fields, hint, keys) == LinearLookups(fields, keys)
    decreases |keys|
  {
    if keys != [] {
      var found := HintedSearch(fields, hint, keys[0]);
      assert !HintedRepetition(fields, hint);
      assert found == LinearSearch(fields, keys[0]);
      LookupsAgree(fields, NextHint(fields, hint, found), keys[1..]);
    }
  }

  /** Of two keys looked up, the second finds the repetition. */
  lemma RepetitionIsFound(fields: seq<KeyedField>, j: nat)
    requires HintedRepetition(fields, j)
    ensures var keys := [fields[j - 1].key, fields[j].key];
            HintedLookups(fields, 0, keys) == [j - 1, j] != LinearLookups(fields, keys)
  {
    var a, b := fields[j - 1].key, fields[j].key;
    var keys, last: seq<bytes> := [a, b], [b];
    assert keys[1..] == last && last[1..] == [];
    assert HintedSearch(fields, 0, a) == LinearSearch(fields, a) == j - 1;
    assert HintedLookups(fields, j, [b]) == [HintedSearch(fields, j, b)] + HintedLookups(fields, NextHint(fields, j, j), []);
    assert LinearLookups(fields, [b]) == [LinearSearch(fields, b)] + [];
    var i :| 0 <= i < j && fields[i].key == b;
    assert LinearSearch(fields, b) <= i;
    assert LinearLookups(fields, [a, b])[1] == LinearSearch(fields, b);
    assert [j - 1, j][1] == j;
  }

  /** Sequences of lookups on a fresh frame answer what linear searches do, exactly
      when no repeated key stands where a lookup can leave the hint. */
  lemma LookupsAreSafeExactly(fields: seq<KeyedField>)
    ensures (forall keys: seq<bytes> :: HintedLookups(fields, 0, keys) == LinearLookups(fields, keys)) <==>
            (forall j: nat :: !HintedRepetition(fields, j))
  {
    if forall j: nat :: !HintedRepetition(fields, j) {
      forall keys: seq<bytes> ensures HintedLookups(fields, 0, keys) == LinearLookups(fields, keys) {
        LookupsAgree(fields, 0, keys);
      }
    } else {
      var j: nat :| HintedRepetition(fields, j);
      RepetitionIsFound(fields, j);
    }
  }

  /** Two fields with one key: the second lookup of it finds the second field. */
  lemma TwoEqualKeysDisagree(f: KeyedField)
    requires f.key != []
    ensures HintedLookups([f, f], 0, [f.key, f.key]) == [0, 1] && LinearLookups([f, f], [f.key, f.key]) == [0, 0]
  {
    var fields, last: seq<bytes> := [f, f], [f.key];
    assert fields[0].key == fields[1].key && !IsFirst(fields, 1) && IsFirst(fields, 0);
    assert HintedRepetition(fields, 1);
    RepetitionIsFound(fields, 1);
    assert [f.key, f.key][1..] == last && last[1..] == [];
    assert LinearSearch(fields, f.key) == 0;
    assert LinearLookups(fields, last) == [0] + LinearLookups(fields, last[1..]);
  }

  /** Distinct keys leave no such place. */
  lemma DistinctKeysAreSafe(fields: seq<KeyedField>, keys: seq<bytes>)
    requires DistinctKeys(fields)
    ensures HintedLookups(fields, 0, keys) == LinearLookups(fields, keys)
  {
    LookupsAgree(fields, 0, keys);
  }
}
