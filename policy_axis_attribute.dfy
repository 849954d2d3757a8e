/** An attribute of a policy axis: its name within the axis and whether encryption under it
    uses the hybridized (post-quantum) scheme. */
module PolicyAxisAttributeModel {
  import opened Base

  /** Both fields are final: an attribute is a value. */
  datatype PolicyAxisAttribute = PolicyAxisAttribute(name: string, encryptionHint: bool)

  /** `equals(o)`: `o` is `None` when it is `null` or not a `PolicyAxisAttribute`. Two attributes
      are equal when their names and their hints are. */
  function Equals(a: PolicyAxisAttribute, o: Option<PolicyAxisAttribute>): (r: bool)
    ensures r <==> o == Some(a)
    ensures r ==> HashCode(a) == HashCode(o.value) && ToString(a) == ToString(o.value)
  {
    match o
    case None => false
    case Some(other) => a.name == other.name && a.encryptionHint == other.encryptionHint
  }

  /** The UTF-16 code units of a string, as Java stores it: a character beyond the basic plane
      takes a surrogate pair. */
  function Utf16(s: string): (r: seq<int>)
    ensures |s| <= |r| <= 2 * |s|
    ensures forall i :: 0 <= i < |r| ==> 0 <= r[i] < 0x10000
  {
    if s == [] then []
    else
      var c := s[|s| - 1] as int;
      Utf16(s[..|s| - 1])
      + if c < 0x10000 then [c] else [0xD800 + (c - 0x10000) / 0x400, 0xDC00 + (c - 0x10000) % 0x400]
  }

  /** `String.hashCode`: the code units read as a number in base 31, in Java `int` arithmetic. */
  function StringHash(units: seq<int>): (r: int)
    ensures IsInt(r)
  {
    if units == [] then 0 else ToInt(31 * StringHash(units[..|units| - 1]) + units[|units| - 1])
  }

  /** `Boolean.hashCode`: 1231 for `true`, 1237 for `false`. */
  function BooleanHash(b: bool): (r: int)
    ensures IsInt(r)
    ensures b <==> r == 1231
    ensures !b <==> r == 1237
  {
    if b then 1231 else 1237
  }

  /** `hashCode()`, that is `Objects.hash(name, encryptionHint)`: the list hash of the two
      fields, seeded with 1, in Java `int` arithmetic. */
  function HashCode(a: PolicyAxisAttribute): (r: int)
    ensures IsInt(r)
  {
    ToInt(31 * (31 * 1 + StringHash(Utf16(a.name))) + BooleanHash(a.encryptionHint))
  }

  /** The hint as `toString` spells it. */
  function HintName(hint: bool): (r: string)
    ensures r == "Hybridized" || r == "Classic"
    ensures |r| > 0 && (r[|r| - 1] == 'd' <==> hint)
  {
    if hint then "Hybridized" else "Classic"
  }

  const NAME_OPEN: string := "{ \"name\": \""
  const HINT_OPEN: string := "\", \"encryption_hint\": \""
  const CLOSE: string := "\" }"

  /** `toString()`: a JSON-like object of the name and the hint's name. */
  function ToString(a: PolicyAxisAttribute): (r: string)
    ensures |r| == |NAME_OPEN| + |a.name| + |HINT_OPEN| + |HintName(a.encryptionHint)| + |CLOSE|
    ensures r[..|NAME_OPEN|] == NAME_OPEN
    ensures r[|NAME_OPEN|..|NAME_OPEN| + |a.name|] == a.name
    ensures r[|NAME_OPEN| + |a.name|..|NAME_OPEN| + |a.name| + |HINT_OPEN|] == HINT_OPEN
    ensures r[|r| - |CLOSE| - |HintName(a.encryptionHint)|..] == HintName(a.encryptionHint) + CLOSE
  {
    var r := NAME_OPEN + a.name + HINT_OPEN + HintName(a.encryptionHint) + CLOSE;
    assert r[|NAME_OPEN| + |a.name|..|NAME_OPEN| + |a.name| + |HINT_OPEN|] == HINT_OPEN;
    assert r[|r| - |CLOSE| - |HintName(a.encryptionHint)|..] == HintName(a.encryptionHint) + CLOSE;
    r
  }

  /** `toString` loses nothing: two attributes printing alike are equal, even when a name holds
      quotes. */
  lemma ToStringInjective(a: PolicyAxisAttribute, b: PolicyAxisAttribute)
    requires ToString(a) == ToString(b)
    ensures a == b
  {
    var x := ToString(a);
    assert x[|x| - |CLOSE| - 1] == HintName(a.encryptionHint)[|HintName(a.encryptionHint)| - 1];
    assert x[|x| - |CLOSE| - 1] == HintName(b.encryptionHint)[|HintName(b.encryptionHint)| - 1];
    assert |a.name| == |b.name|;
  }
}
