/** The dynamic values of src/blogin/value.cpp. Objects are kept as maps: the order of
    their members is not modelled. */
module Values {
  import opened Strings

  datatype Value =
    | Null
    | Boolean(boolean: bool)
    | Integer(integer: int)
    | Number(number: real)
    | String(text: string)
    | List(items: seq<Value>)
    | Object(members: map<string, Value>)
  {
    predicate Truthy() {
      match this
      case Null => false
      case Boolean(b) => b
      case Integer(i) => i != 0
      case Number(r) => r != 0.0
      case String(s) => s != []
      case List(items) => items != []
      case Object(members) => members != map[]
    }

    /** A value read as the wrong type is the fallback. */
    function AsNumber(): real {
      match this
      case Integer(i) => i as real
      case Number(r) => r
      case _ => 0.0
    }

    function AsString(): string { if String? then text else "" }

    function Items(): seq<Value> { if List? then items else [] }

    function Members(): map<string, Value> { if Object? then members else map[] }
  }

  function NaturalText(n: nat): string {
    (if n < 10 then [] else NaturalText(n / 10)) + [('0' as int + n % 10) as char]
  }

  function IntegerText(i: int): string {
    if i < 0 then "-" + NaturalText(-i) else NaturalText(i)
  }
}
