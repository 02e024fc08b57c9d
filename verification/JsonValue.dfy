/** json_spirit's values, in the configuration that keeps an object's members in a vector. */
module JsonValue {
  import opened JsonText

  const TWO_TO_THE_63 := 0x8000_0000_0000_0000
  const TWO_TO_THE_64 := 0x1_0000_0000_0000_0000

  type Int64 = i: int | -TWO_TO_THE_63 <= i < TWO_TO_THE_63

  // A number is kept in 64 bits, here by their signed value, with a note whether it was unsigned.
  datatype Value =
    | Object(members: seq<Member>)
    | Array(items: seq<Value>)
    | Str(text: Text)
    | Bool(b: bool)
    | Int(bits: Int64, unsigned: bool)
    | Null

  datatype Member = Member(name: Text, value: Value)

  // What operator== compares: everything but the note.
  predicate Same(a: Value, b: Value) {
    match a
    case Object(ms) =>
      b.Object? && |ms| == |b.members| && forall k :: 0 <= k < |ms| ==>
        ms[k].name == b.members[k].name && Same(ms[k].value, b.members[k].value)
    case Array(vs) => b.Array? && |vs| == |b.items| && forall k :: 0 <= k < |vs| ==> Same(vs[k], b.items[k])
    case Int(n, _) => b.Int? && n == b.bits
    case _ => a == b
  }

  // The number the value stands for: the bits, read as they were put in.
  function Number(bits: Int64, unsigned: bool): int {
    if unsigned && bits < 0 then bits + TWO_TO_THE_64 else bits
  }

  // The value with the note set only where the number needs it.
  function Canon(v: Value): (c: Value)
    ensures Same(c, v)
  {
    match v
    case Object(ms) => Object(CanonMembers(ms))
    case Array(vs) => Array(CanonItems(vs))
    case Int(n, unsigned) => Int(n, unsigned && n < 0)
    case _ => v
  }

  function CanonItems(vs: seq<Value>): (cs: seq<Value>)
    ensures |cs| == |vs| && forall k :: 0 <= k < |vs| ==> Same(cs[k], vs[k])
  {
    if vs == [] then [] else [Canon(vs[0])] + CanonItems(vs[1..])
  }

  function CanonMembers(ms: seq<Member>): (cs: seq<Member>)
    ensures |cs| == |ms|
    ensures forall k :: 0 <= k < |ms| ==> cs[k].name == ms[k].name && Same(cs[k].value, ms[k].value)
  {
    if ms == [] then [] else [Member(ms[0].name, Canon(ms[0].value))] + CanonMembers(ms[1..])
  }
}
