/** The slice of the firmware's property store this adapter relies on: an
    enumerated string property with its ordered list of valid values. */
module EnumProperties {
  import opened Types

  /** The "no index" answer of `getEnumIndex` when the value is not in the list. */
  const NoIndex: byte := 0xFF

  predicate Distinct(s: seq<string>)
  {
    forall i, j :: 0 <= i < j < |s| ==> s[i] != s[j]
  }

  /** Position of the first occurrence of x in s, or |s| when there is none. */
  function IndexOf(s: seq<string>, x: string): (k: nat)
    ensures k <= |s|
    ensures k < |s| ==> s[k] == x
    ensures forall j :: 0 <= j < k ==> s[j] != x
  {
    if |s| == 0 then 0
    else if s[0] == x then 0
    else 1 + IndexOf(s[1..], x)
  }

  class EnumProperty {
    /** The valid values, in the order they were added (`addEnumString`). */
    const enums: seq<string>
    /** The current value; None before anything was set. */
    var value: Option<string>

    /** Every enum index fits a byte without meeting NoIndex. */
    ghost predicate Valid()
    {
      |enums| < NoIndex as int && Distinct(enums)
    }

    constructor (enums: seq<string>)
      requires |enums| < NoIndex as int && Distinct(enums)
      ensures Valid() && this.enums == enums && value == None
    {
      this.enums := enums;
      value := None;
    }

    /** `getEnumString`: the value at an index, or None (the null pointer) past the list. */
    function GetEnumString(index: byte): (r: Option<string>)
      ensures r.Some? <==> index as int < |enums|
      ensures r.Some? ==> r.value == enums[index as int] && r.value in enums
    {
      if index as int < |enums| then Some(enums[index as int]) else None
    }

    /** `setString`: store the value and report whether it differed. */
    method SetString(s: string) returns (changed: bool)
      modifies this
      ensures value == Some(s)
      ensures changed <==> old(value) != Some(s)
    {
      changed := value != Some(s);
      value := Some(s);
    }

    /** `getEnumIndex`: the position of the current value in the list, or
        NoIndex when there is no value or it is not in the list. */
    function GetEnumIndex(): (r: byte)
      reads this
      requires Valid()
      ensures r == NoIndex <==> value.None? || value.value !in enums
      ensures r != NoIndex ==> r as int < |enums| && value == Some(enums[r as int])
    {
      if value.None? then NoIndex
      else
        var k := IndexOf(enums, value.value);
        if k < |enums| then k as byte else NoIndex
    }
  }

  /** Reading back the index of a value just set from the list gives its position. */
  lemma EnumIndexOfListed(p: EnumProperty, k: nat)
    requires p.Valid() && k < |p.enums| && p.value == Some(p.enums[k])
    ensures p.GetEnumIndex() as int == k
  {
  }
}
