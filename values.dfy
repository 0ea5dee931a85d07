/** Python values as `json.load` produces them from the telemetry file, and the
    few builtins the aggregators apply to them: `float(...)`, `str(...)` and
    `str.lower()`. */
module PyValues {

  datatype Option<T> = None | Some(value: T)

  /** One JSON value of a telemetry record. `Num` stands for both `int` and
      `float`; `Other` is `null`, a list or an object, kept with the text that
      `str(...)` gives for it. */
  datatype Value = Bool(b: bool) | Num(x: real) | Str(s: string) | Other(text: string)

  /** A telemetry record: a JSON object, i.e. a Python `dict`. */
  type Record = map<string, Value>

  /** The parts of Python's builtins the model leaves abstract: the string
      grammar accepted by `float(...)`, and the decimal rendering `str(...)`
      chooses for a number. */
  datatype Runtime = Runtime(parseFloat: string -> Option<real>, numText: real -> string)

  /** `float(v)`, with a raised exception read as `None`. A `bool` is an `int`
      in Python, so `float(True) == 1.0`; `None`, lists and dicts raise. */
  function Float(rt: Runtime, v: Value): Option<real>
  {
    match v
    case Bool(b) => Some(if b then 1.0 else 0.0)
    case Num(x) => Some(x)
    case Str(s) => rt.parseFloat(s)
    case Other(_) => None
  }

  /** `str(v)`. */
  function Text(rt: Runtime, v: Value): string
  {
    match v
    case Bool(b) => if b then "True" else "False"
    case Num(x) => rt.numText(x)
    case Str(s) => s
    case Other(t) => t
  }

  function LowerChar(c: char): char
  {
    if 'A' <= c <= 'Z' then (c as int + 32) as char else c
  }

  function UpperChar(c: char): char
  {
    if 'a' <= c <= 'z' then (c as int - 32) as char else c
  }

  /** `s.lower()` on the ASCII letters. */
  function Lower(s: string): string
  {
    seq(|s|, i requires 0 <= i < |s| => LowerChar(s[i]))
  }

  /** `s.upper()` on the ASCII letters. */
  function Upper(s: string): string
  {
    seq(|s|, i requires 0 <= i < |s| => UpperChar(s[i]))
  }

  /** Two region names that differ only in the case of their letters. */
  predicate SameIgnoringCase(a: string, b: string)
  {
    Lower(a) == Lower(b)
  }

  /** The upper-case spelling of a name is a case variant of it. */
  lemma UpperIsCaseVariant(s: string)
    ensures SameIgnoringCase(Upper(s), s)
  {
  }
}
