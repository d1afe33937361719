/**
 The part of zod's object validation the schemas use. A field's type is
 checked first; a string field that has the right type then runs every one
 of its checks and reports one issue per failing check. An optional field
 accepts a missing key (but not `null`). URL and e-mail recognition are the
 parameters `isUrl` and `isEmail`.
 */
module Zod {
  import opened JsValues

  datatype IssueKind =
    | InvalidType
    | TooSmall(minimum: nat)
    | TooBig(maximum: nat)
    | InvalidPattern
    | InvalidUrl
    | InvalidEmail
    | Custom

  /** An issue names the field it is about. */
  datatype Issue = Issue(path: string, kind: IssueKind)

  /** The checks a string schema carries; a `Pattern` is a regular expression
      given by its membership test. */
  datatype StringCheck =
    | Min(minimum: nat)
    | Max(maximum: nat)
    | Pattern(test: string -> bool)
    | Url
    | Email

  predicate Passes(check: StringCheck, s: string, isUrl: string -> bool, isEmail: string -> bool) {
    match check
    case Min(n) => Utf16Length(s) >= n
    case Max(n) => Utf16Length(s) <= n
    case Pattern(test) => test(s)
    case Url => isUrl(s)
    case Email => isEmail(s)
  }

  /** The recogniser given to schemas that carry no `.email()` or `.url()`
      check: it is never consulted, and recognises nothing. */
  function NoEmail(s: string): bool {
    false
  }

  function IssueFor(check: StringCheck): IssueKind {
    match check
    case Min(n) => TooSmall(n)
    case Max(n) => TooBig(n)
    case Pattern(_) => InvalidPattern
    case Url => InvalidUrl
    case Email => InvalidEmail
  }

  /** One issue per failing check, in the order the checks are declared. */
  function CheckString(path: string, s: string, checks: seq<StringCheck>,
                       isUrl: string -> bool, isEmail: string -> bool): (issues: seq<Issue>)
    ensures |issues| <= |checks|
    ensures issues == [] <==> forall i :: 0 <= i < |checks| ==> Passes(checks[i], s, isUrl, isEmail)
    ensures forall i :: 0 <= i < |issues| ==> issues[i].path == path
  {
    if checks == [] then []
    else
      (if Passes(checks[0], s, isUrl, isEmail) then [] else [Issue(path, IssueFor(checks[0]))])
      + CheckString(path, s, checks[1..], isUrl, isEmail)
  }

  /** `z.string()` with its checks, optionally `.optional()`. */
  function StringField(path: string, v: JsValue, optional: bool, checks: seq<StringCheck>,
                       isUrl: string -> bool, isEmail: string -> bool): (issues: seq<Issue>)
    ensures issues == [] <==>
              (optional && v.Undefined?)
              || (v.Str? && forall i :: 0 <= i < |checks| ==> Passes(checks[i], v.s, isUrl, isEmail))
    ensures forall i :: 0 <= i < |issues| ==> issues[i].path == path
  {
    if optional && v.Undefined? then []
    else if !v.Str? then [Issue(path, InvalidType)]
    else CheckString(path, v.s, checks, isUrl, isEmail)
  }

  /** `z.boolean()`, optionally `.optional()`. */
  function BooleanField(path: string, v: JsValue, optional: bool): (issues: seq<Issue>)
    ensures issues == [] <==> v.Bool? || (optional && v.Undefined?)
    ensures forall i :: 0 <= i < |issues| ==> issues[i] == Issue(path, InvalidType)
  {
    if v.Bool? || (optional && v.Undefined?) then [] else [Issue(path, InvalidType)]
  }
}
