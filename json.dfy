/**
 * The JSON values the core hands to and receives from encoding/json.
 * Text layout (quoting, escaping, indentation, syntax checking) belongs to that
 * library and is not modelled; the core only ever sees decoded values.
 */
module Json {
  import opened Wrappers

  /** A syntactically valid JSON value, as far as the core distinguishes them. */
  datatype JsonValue = Null | Str(text: string) | Number | Bool | Array | Object

  /** One `"name": value` member of a serialised object. */
  datatype Member = Member(name: string, value: JsonValue)

  /** The member names of an object, in the order they are written. */
  function Names(members: seq<Member>): (r: seq<string>)
    ensures |r| == |members|
    ensures forall i :: 0 <= i < |members| ==> r[i] == members[i].name
  {
    if members == [] then [] else [members[0].name] + Names(members[1..])
  }

  /** The value of the member called `name`, if the object has one. */
  function Lookup(members: seq<Member>, name: string): Option<JsonValue>
  {
    if members == [] then None
    else if members[0].name == name then Some(members[0].value)
    else Lookup(members[1..], name)
  }
}
