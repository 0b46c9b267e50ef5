/**
 * GenericParameters: five independent name-to-value tables, one per value
 * type (signed and unsigned 32-bit integers, booleans, doubles, strings).
 * A getter answers with an optional value; a setter stores a value under a
 * name, replacing any earlier one.
 */
module Parameters {
  import opened Bits
  import opened Wrappers

  /** A signed 32-bit integer (int32_t). */
  type int32 = x: int | -0x8000_0000 <= x < 0x8000_0000

  class GenericParameters {
    /** m_mIntParameters. */
    var ints: map<string, int32>
    /** m_mUintParameters. */
    var uints: map<string, uint32>
    /** m_mBoolParameters. */
    var bools: map<string, bool>
    /** m_mDoubleParameters; a double is only stored and handed back, so a real stands for it. */
    var doubles: map<string, real>
    /** m_mStringParameters. */
    var strings: map<string, string>

    /** A new object: no parameter of any type is set. */
    constructor ()
      ensures ints == map[] && uints == map[] && bools == map[] && doubles == map[] && strings == map[]
      ensures forall name :: GetInt(name) == None && GetUint(name) == None && GetBool(name) == None
      ensures forall name :: GetDouble(name) == None && GetString(name) == None
    {
      ints, uints, bools, doubles, strings := map[], map[], map[], map[], map[];
    }

    /** getIntParameter(name): the int stored under `name`, if any. */
    function GetInt(name: string): (r: Option<int32>)
      reads this
      ensures r.Some? <==> name in ints
      ensures r.Some? ==> ints[name] == r.value
    {
      if name in ints then Some(ints[name]) else None
    }

    /** getUintParameter(name): the unsigned int stored under `name`, if any. */
    function GetUint(name: string): (r: Option<uint32>)
      reads this
      ensures r.Some? <==> name in uints
      ensures r.Some? ==> uints[name] == r.value
    {
      if name in uints then Some(uints[name]) else None
    }

    /** getBoolParameter(name): the bool stored under `name`, if any. */
    function GetBool(name: string): (r: Option<bool>)
      reads this
      ensures r.Some? <==> name in bools
      ensures r.Some? ==> bools[name] == r.value
    {
      if name in bools then Some(bools[name]) else None
    }

    /** getDoubleParameter(name): the double stored under `name`, if any. */
    function GetDouble(name: string): (r: Option<real>)
      reads this
      ensures r.Some? <==> name in doubles
      ensures r.Some? ==> doubles[name] == r.value
    {
      if name in doubles then Some(doubles[name]) else None
    }

    /** getStringParameter(name): the string stored under `name`, if any. */
    function GetString(name: string): (r: Option<string>)
      reads this
      ensures r.Some? <==> name in strings
      ensures r.Some? ==> strings[name] == r.value
    {
      if name in strings then Some(strings[name]) else None
    }

    /**
     * setIntParameter(name, value): afterwards getIntParameter(name) yields
     * `value`, whatever was stored before; every other name and every
     * other table are as they were.
     */
    method SetInt(name: string, value: int32)
      modifies this
      ensures ints == old(ints)[name := value]
      ensures GetInt(name) == Some(value)
      ensures forall other :: other != name ==> GetInt(other) == old(GetInt(other))
      ensures uints == old(uints) && bools == old(bools) && doubles == old(doubles) && strings == old(strings)
    {
      ints := ints[name := value];
    }

    /** setUintParameter(name, value): as SetInt, for the unsigned table. */
    method SetUint(name: string, value: uint32)
      modifies this
      ensures uints == old(uints)[name := value]
      ensures GetUint(name) == Some(value)
      ensures forall other :: other != name ==> GetUint(other) == old(GetUint(other))
      ensures ints == old(ints) && bools == old(bools) && doubles == old(doubles) && strings == old(strings)
    {
      uints := uints[name := value];
    }

    /** setBoolParameter(name, value): as SetInt, for the bool table. */
    method SetBool(name: string, value: bool)
      modifies this
      ensures bools == old(bools)[name := value]
      ensures GetBool(name) == Some(value)
      ensures forall other :: other != name ==> GetBool(other) == old(GetBool(other))
      ensures ints == old(ints) && uints == old(uints) && doubles == old(doubles) && strings == old(strings)
    {
      bools := bools[name := value];
    }

    /** setDoubleParameter(name, value): as SetInt, for the double table. */
    method SetDouble(name: string, value: real)
      modifies this
      ensures doubles == old(doubles)[name := value]
      ensures GetDouble(name) == Some(value)
      ensures forall other :: other != name ==> GetDouble(other) == old(GetDouble(other))
      ensures ints == old(ints) && uints == old(uints) && bools == old(bools) && strings == old(strings)
    {
      doubles := doubles[name := value];
    }

    /** setStringParameter(name, value): as SetInt, for the string table. */
    method SetString(name: string, value: string)
      modifies this
      ensures strings == old(strings)[name := value]
      ensures GetString(name) == Some(value)
      ensures forall other :: other != name ==> GetString(other) == old(GetString(other))
      ensures ints == old(ints) && uints == old(uints) && bools == old(bools) && doubles == old(doubles)
    {
      strings := strings[name := value];
    }
  }

  /**
   * The tables are independent: an int and a string stored under the same
   * name are both kept, the second value set wins within a table, and a
   * name never set is absent.
   */
  method SameNameScenario() returns (i: Option<int32>, u: Option<uint32>, s: Option<string>, missing: Option<bool>)
    ensures i == Some(-7) && u == None && s == Some("seven") && missing == None
  {
    var p := new GenericParameters();
    p.SetInt("n", 7);
    p.SetString("n", "seven");
    p.SetInt("n", -7);
    i, u, s, missing := p.GetInt("n"), p.GetUint("n"), p.GetString("n"), p.GetBool("b");
  }
}
