/**
 * A thrown JavaScript value, read defensively the way both files read it
 * (`err?.message`, `err?.properties?.errors`, ...). Docxtemplater attaches its
 * itemised diagnostics under `properties.errors`; any other thrown value simply
 * has no such list.
 */
module Errors {
  import opened Wrappers

  datatype Thrown = Thrown(
    message: Option<string>,
    name: Option<string>,
    properties: Option<Properties>,
    /** `String(err)`: what the value prints as. */
    text: string)

  /** `err.properties`: `errors` is `None` whenever it is absent or not an array. */
  datatype Properties = Properties(
    errors: Option<seq<Thrown>>,
    explanation: Option<string>,
    tag: Option<string>,
    context: Option<string>,
    file: Option<string>,
    part: Option<string>,
    offset: Option<int>,
    id: Option<string>,
    xtag: Option<string>)

  /** `err?.message ?? String(err)`: the message whenever there is one, even an empty one. */
  function Describe(e: Thrown): (r: string)
    ensures e.message.Some? ==> r == e.message.value
    ensures e.message.None? ==> r == e.text
  {
    e.message.GetOr(e.text)
  }

  /** What `new Error(msg)` evaluates to. */
  function ErrorOf(msg: string): (e: Thrown)
    ensures Describe(e) == msg
  {
    Thrown(Some(msg), Some("Error"), None, if msg == "" then "Error" else "Error: " + msg)
  }
}
