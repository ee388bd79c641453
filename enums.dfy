/**
 * The TypeScript numeric enums NodeType, SoloonColor and ComethDirection.
 * A numeric enum is its member names in declaration order and the value of
 * the first member; each later member is one more than the one before.
 */
module Enums {
  import opened Wrappers
  import opened Text

  datatype NumericEnum = NumericEnum(names: seq<string>, first: int)

  const NodeType := NumericEnum(["SPACE", "POLYANET", "SOLOON", "COMETH"], -1)
  const SoloonColor := NumericEnum(["BLUE", "RED", "PURPLE", "WHITE"], 0)
  const ComethDirection := NumericEnum(["UP", "DOWN", "RIGHT", "LEFT"], 0)

  const SPACE: int := -1
  const POLYANET: int := 0
  const SOLOON: int := 1
  const COMETH: int := 2

  /** Member names are distinct upper-case words. */
  predicate WellFormed(e: NumericEnum) {
    && (forall i, j :: 0 <= i < j < |e.names| ==> e.names[i] != e.names[j])
    && (forall i :: 0 <= i < |e.names| ==> IsUpperWord(e.names[i]))
  }

  function IndexOf(names: seq<string>, key: string): (k: nat)
    requires key in names
    ensures k < |names| && names[k] == key
    ensures forall j :: 0 <= j < k ==> names[j] != key
  {
    if names[0] == key then 0 else 1 + IndexOf(names[1..], key)
  }

  /** `key in E ? E[key] : undefined` over the member names of E. */
  function Lookup(e: NumericEnum, key: string): (r: Option<int>)
    ensures r.Some? <==> key in e.names
    ensures r.Some? ==> e.first <= r.value < e.first + |e.names| && e.names[r.value - e.first] == key
  {
    if key in e.names then Some(e.first + IndexOf(e.names, key)) else None
  }

  /** `E[value]`: the member name of a value, undefined outside the enum's range. */
  function NameOf(e: NumericEnum, value: int): (r: Option<string>)
    ensures r.Some? <==> e.first <= value < e.first + |e.names|
    ensures r.Some? ==> r.value in e.names
  {
    if e.first <= value < e.first + |e.names| then Some(e.names[value - e.first]) else None
  }

  lemma NodeTypeWellFormed()
    ensures WellFormed(NodeType)
  {
    assert IsUpperWord("SPACE") && IsUpperWord("POLYANET") && IsUpperWord("SOLOON") && IsUpperWord("COMETH");
  }

  lemma SoloonColorWellFormed()
    ensures WellFormed(SoloonColor)
  {
    assert IsUpperWord("BLUE") && IsUpperWord("RED") && IsUpperWord("PURPLE") && IsUpperWord("WHITE");
  }

  lemma ComethDirectionWellFormed()
    ensures WellFormed(ComethDirection)
  {
    assert IsUpperWord("UP") && IsUpperWord("DOWN") && IsUpperWord("RIGHT") && IsUpperWord("LEFT");
  }

  /** Looking up the name of a value gives back the value. */
  lemma LookupNameOf(e: NumericEnum, value: int)
    requires WellFormed(e)
    requires e.first <= value < e.first + |e.names|
    ensures Lookup(e, NameOf(e, value).value) == Some(value)
  {
    var name := NameOf(e, value).value;
    var k := IndexOf(e.names, name);
    assert e.names[value - e.first] == name;
  }

  /** The name of a looked-up value is the key that was looked up. */
  lemma NameOfLookup(e: NumericEnum, key: string)
    requires Lookup(e, key).Some?
    ensures NameOf(e, Lookup(e, key).value) == Some(key)
  {
  }

  /** No NodeType name contains an underscore, so a token with one never names a node type. */
  lemma NodeTypeNamesUnderscoreFree(key: string)
    requires '_' in key
    ensures Lookup(NodeType, key) == None
  {
    forall n | n in NodeType.names
      ensures n != key
    {
      assert '_' !in n;
    }
  }
}
