/** The few pieces of JavaScript's value semantics that the form validators
    of script.js rely on: nullable strings and their truthiness, the Number
    values a string can coerce to, the relational comparison `<` on Numbers,
    and the characters the regular-expression escape `\s` stands for. */
module JsValues {

  /** A value that may be `null` (an absent form field). */
  datatype Option<+T> = None | Some(value: T)

  /** JavaScript truthiness of a string-or-null: `null` and `""` are falsy,
      every other string is truthy. */
  predicate Truthy(v: Option<string>) {
    v.Some? && v.value != ""
  }

  /** `v || null` on a string-or-null: a falsy value becomes `null`. */
  function OrNull(v: Option<string>): (r: Option<string>)
    ensures Truthy(v) ==> r == v
    ensures !Truthy(v) ==> r == None
    ensures r.Some? ==> r.value != ""
  {
    if Truthy(v) then v else None
  }

  /** A JavaScript Number as far as comparisons are concerned: a finite value
      (kept exactly, without binary64 rounding), the two infinities, or NaN. */
  datatype JsNumber = Finite(value: real) | PosInfinity | NegInfinity | NaN

  /** `x < y` on Numbers (IsLessThan and Number::lessThan of the ECMAScript
      language specification, for two Numbers): false whenever either side is NaN, so
      a NaN is neither below nor above any bound. */
  predicate LessThan(x: JsNumber, y: JsNumber) {
    if x.NaN? || y.NaN? then false
    else if x == y then false
    else if x.PosInfinity? || y.NegInfinity? then false
    else if x.NegInfinity? || y.PosInfinity? then true
    else x.value < y.value
  }

  /** The code points matched by `\s`: the WhiteSpace and LineTerminator
      characters of the ECMAScript language specification, with the space
      separators of the current Unicode category Zs. */
  const WhitespaceChars: set<char> := {
    '\t', '\n', '\U{000B}', '\U{000C}', '\r', ' ', '\U{00A0}', '\U{1680}',
    '\U{2000}', '\U{2001}', '\U{2002}', '\U{2003}', '\U{2004}', '\U{2005}',
    '\U{2006}', '\U{2007}', '\U{2008}', '\U{2009}', '\U{200A}',
    '\U{2028}', '\U{2029}', '\U{202F}', '\U{205F}', '\U{3000}', '\U{FEFF}'
  }

  predicate IsWhitespace(c: char) {
    c in WhitespaceChars
  }

  /** `\d` without the `u` flag: the ASCII digits only. */
  predicate IsAsciiDigit(c: char) {
    '0' <= c <= '9'
  }
}
