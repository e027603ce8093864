/**
  The dynamically typed side of a tool call: the JSON value received as
  `arguments`, JavaScript's `typeof` and truthiness on it, the argument
  validator shared by both servers, and the `{ text, isError }` reply.
 */
module ToolArgs {
  import opened JsText

  /** A JSON value as the handler sees it; `Undefined` stands for an absent
      value (no `arguments` at all, or a missing property). */
  datatype JsValue =
    | Undefined
    | Null
    | Bool(b: bool)
    | Num(n: real)
    | Str(s: string)
    | Arr(items: seq<JsValue>)
    | Obj(fields: map<string, JsValue>)

  /** `typeof v`; note that `typeof null` is `"object"`. */
  function TypeOf(v: JsValue): string {
    match v
    case Undefined => "undefined"
    case Null => "object"
    case Bool(_) => "boolean"
    case Num(_) => "number"
    case Str(_) => "string"
    case Arr(_) => "object"
    case Obj(_) => "object"
  }

  /** JavaScript truthiness: `!v` holds exactly when this is false. */
  predicate Truthy(v: JsValue) {
    match v
    case Undefined => false
    case Null => false
    case Bool(b) => b
    case Num(n) => n != 0.0
    case Str(s) => s != []
    case Arr(_) => true
    case Obj(_) => true
  }

  const ContentKey: string := "artifact_content"
  const VersionKey: string := "artifact_version"

  /** The property read `v.key` for the two argument names: only an object's
      own property has a value; on anything else the read is `undefined`. */
  function Get(v: JsValue, key: string): JsValue {
    if v.Obj? && key in v.fields then v.fields[key] else Undefined
  }

  /** The object holds a string under `key` with a non-whitespace code point. */
  ghost predicate HasText(fields: map<string, JsValue>, key: string) {
    key in fields && fields[key].Str? && !AllWs(fields[key].s)
  }

  /** `isArtifactToHtmlArgs` (the same test as `isSvgToHtmlArgs`): a
      non-null object whose content and version are both strings that are
      not blank. */
  function IsArtifactToHtmlArgs(args: JsValue): (ok: bool)
    ensures ok <==> args.Obj? && HasText(args.fields, ContentKey) && HasText(args.fields, VersionKey)
    ensures ok ==> Truthy(args) && Truthy(Get(args, ContentKey)) && Truthy(Get(args, VersionKey))
  {
    if TypeOf(args) != "object" || args == Null then false
    else
      var content := Get(args, ContentKey);
      var version := Get(args, VersionKey);
      if TypeOf(content) != "string" || Trim(content.s) == [] then false
      else if TypeOf(version) != "string" || Trim(version.s) == [] then false
      else true
  }

  /** The handler's reply: one text item and the error flag. */
  datatype Response = Response(text: string, isError: bool)

  /** How the handler's `try` block ends: a returned reply, or an `Error`
      thrown with a message. */
  datatype Outcome = Returned(response: Response) | Thrown(message: string)

  /** The handler's `catch`: a thrown message becomes an error reply. */
  function Catch(o: Outcome): Response {
    match o
    case Returned(r) => r
    case Thrown(message) => Response("Error: " + message, true)
  }
}
