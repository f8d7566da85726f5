/**
  The few pieces of JavaScript semantics the cheat-sheet page relies on:
  optional properties, truthiness defaults (`x || d`, `x !== false`),
  `String.prototype.startsWith`/`endsWith`/`slice`, and `clsx`.

  JavaScript strings are sequences of UTF-16 code units, while a Dafny
  `char` is a Unicode scalar value; the two agree on the Basic Multilingual
  Plane outside the surrogate range, which is all the tag pattern looks at.
*/
module Js {

  /** An optional object property: `undefined`, or a value. */
  datatype Option<+T> = None | Some(value: T) {
    function GetOr(default: T): T {
      match this
      case Some(v) => v
      case None => default
    }
  }

  /** `x || fallback` on an optional string: `undefined` and `''` are falsy. */
  function OrString(x: Option<string>, fallback: string): string {
    if x.Some? && x.value != "" then x.value else fallback
  }

  /** `x || false` on an optional boolean. */
  function OrFalse(x: Option<bool>): bool {
    x == Some(true)
  }

  /** `x !== false` on an optional boolean. */
  function NotFalse(x: Option<bool>): bool {
    x != Some(false)
  }

  /** `s.startsWith(w)`. */
  predicate StartsWith(s: string, w: string) {
    |w| <= |s| && s[..|w|] == w
  }

  /** `s.endsWith(w)`. */
  predicate EndsWith(s: string, w: string) {
    |w| <= |s| && s[|s| - |w|..] == w
  }

  /** Resolves one argument of `String.prototype.slice`: a negative index
      counts from the end, and the result is clamped to `[0, len]`. */
  function SliceIndex(len: nat, i: int): (r: nat)
    ensures r <= len
  {
    if i < 0 then (if len + i < 0 then 0 else len + i)
    else if i > len then len
    else i
  }

  /** `s.slice(start, end)`: empty when the resolved start is not before
      the resolved end. */
  function Slice(s: string, start: int, end: int): string {
    var from := SliceIndex(|s|, start);
    var to := SliceIndex(|s|, end);
    if from >= to then "" else s[from..to]
  }

  /** The strings of `parts` joined with no separator. */
  function Concat(parts: seq<string>): string {
    if |parts| == 0 then "" else parts[0] + Concat(parts[1..])
  }

  /** `clsx(...)` with string arguments, where a falsy argument (`false`,
      `undefined`, `''`) is written as `""`: the class names that survive. */
  function Clsx(args: seq<string>): (r: seq<string>)
    ensures |r| <= |args|
    ensures forall c :: c in r <==> c in args && c != ""
  {
    if |args| == 0 then []
    else if args[0] == "" then Clsx(args[1..])
    else [args[0]] + Clsx(args[1..])
  }
}
