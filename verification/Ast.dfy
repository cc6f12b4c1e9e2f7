/** Parsed filter expressions. */
module Ast {
  import opened Globs
  import opened Options

  datatype Node =
    | And(l: Node, r: Node)
    | Or(l: Node, r: Node)
    | Not(x: Node)
    | Eq(path: seq<string>, v: string)
    | Substr(path: seq<string>, needle: string, exact: bool, glob: Option<seq<GlobPart>>)
    | Exists(path: seq<string>)
    | Range(path: seq<string>, lo: real, hi: real)
    | CmpNum(path: seq<string>, op: string, n: real)
    | CmpStr(path: seq<string>, op: string, v: string)
    | Regex(path: seq<string>, pattern: string, flags: string)

  function JoinPath(p: seq<string>): string {
    if |p| == 0 then ""
    else if |p| == 1 then p[0]
    else "@" + p[0] + Dotted(p[1..])
  }

  function Dotted(p: seq<string>): string {
    if p == [] then "" else "." + p[0] + Dotted(p[1..])
  }

  /** The printed form of a glob pattern. */
  function GlobText(parts: seq<GlobPart>): string {
    if parts == [] then "" else (if parts[0].wild then "*" else parts[0].lit) + GlobText(parts[1..])
  }

  /** The printed form. Ranges and numeric comparisons print only a placeholder. */
  function Print(n: Node): string {
    match n
    case And(l, r) => "(" + Print(l) + " AND " + Print(r) + ")"
    case Or(l, r) => "(" + Print(l) + " OR " + Print(r) + ")"
    case Not(x) => "NOT " + Print(x)
    case Eq(path, v) => JoinPath(path) + ":" + v
    case Substr(path, needle, exact, glob) =>
      if glob.Some? then JoinPath(path) + ":\"" + GlobText(glob.value) + "\"" else JoinPath(path) + ":~" + needle
    case Exists(path) => JoinPath(path) + ":*"
    case Range(path, lo, hi) => JoinPath(path) + ":[range]"
    case CmpNum(path, op, num) => JoinPath(path) + ":" + op
    case CmpStr(path, op, v) => JoinPath(path) + ":" + op + v
    case Regex(path, pattern, flags) => JoinPath(path) + ":/" + pattern + "/" + flags
  }
}
