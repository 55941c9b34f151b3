/** The fragment of JavaScript regular expressions that the two patterns of
    script.js use, with `RegExp.prototype.test` on a pattern anchored by `^`
    and `$` read as membership of the whole string in the pattern's language.
    None of the constructs here can make a backtracking matcher disagree with
    that reading (no alternation priority, no back-references, no
    look-around, no quantified empty match). */
module RegExp {
  import opened JsValues

  datatype CharClass =
    | Digit                       // `\d`
    | NoneOf(excluded: set<char>) // `[^...]`

  predicate InClass(cls: CharClass, c: char) {
    match cls
    case Digit => IsAsciiDigit(c)
    case NoneOf(excluded) => c !in excluded
  }

  datatype Regex =
    | Char(c: char)                  // a literal character, `@` or `\.`
    | Class(cls: CharClass)          // one character of a class
    | Concat(left: Regex, right: Regex)
    | Plus(body: Regex)              // `body+`
    | Repeat(body: Regex, count: nat) // `body{count}`

  /** Whether the whole of `s` is in the language of `re`. */
  predicate Matches(re: Regex, s: string)
    decreases re, 0, |s|
  {
    match re
    case Char(c) => s == [c]
    case Class(cls) => |s| == 1 && InClass(cls, s[0])
    case Concat(a, b) =>
      exists i | 0 <= i <= |s| :: Matches(a, s[..i]) && Matches(b, s[i..])
    case Plus(a) =>
      Matches(a, s) ||
      exists i | 0 < i < |s| :: Matches(a, s[..i]) && Matches(re, s[i..])
    case Repeat(a, n) => MatchesCount(a, n, s)
  }

  /** Whether `s` splits into exactly `n` pieces, each in the language of `a`. */
  predicate MatchesCount(a: Regex, n: nat, s: string)
    decreases a, 1, n
  {
    if n == 0 then s == []
    else exists i | 0 <= i <= |s| :: Matches(a, s[..i]) && MatchesCount(a, n - 1, s[i..])
  }

  /** Every character of `s` is in `cls`. */
  predicate AllIn(cls: CharClass, s: string) {
    forall k :: 0 <= k < |s| ==> InClass(cls, s[k])
  }

  /** A split point of a string that `Concat(a, b)` accepts. */
  lemma ConcatSplit(a: Regex, b: Regex, s: string) returns (i: nat)
    requires Matches(Concat(a, b), s)
    ensures i <= |s| && Matches(a, s[..i]) && Matches(b, s[i..])
  {
    i :| 0 <= i <= |s| && Matches(a, s[..i]) && Matches(b, s[i..]);
  }

  /** A string that a literal character followed by `b` accepts starts with
      that character, and `b` accepts the rest. */
  lemma CharThen(c: char, b: Regex, s: string)
    requires Matches(Concat(Char(c), b), s)
    ensures |s| > 0 && s[0] == c && Matches(b, s[1..])
    ensures s == [c] + s[1..]
  {
    var i := ConcatSplit(Char(c), b, s);
    assert s[..i] == [c];
  }

  /** A string that `[c]+` followed by `b` accepts starts with a non-empty run
      of characters of `c`, and `b` accepts the rest. */
  lemma ClassPlusThen(cls: CharClass, b: Regex, s: string) returns (i: nat)
    requires Matches(Concat(Plus(Class(cls)), b), s)
    ensures 0 < i <= |s| && AllIn(cls, s[..i]) && Matches(b, s[i..])
    ensures s == s[..i] + s[i..]
  {
    i := ConcatSplit(Plus(Class(cls)), b, s);
    PlusOfClass(cls, s[..i]);
  }

  /** `[c]+` accepts exactly the non-empty strings of characters of `c`. */
  lemma {:induction false} PlusOfClass(cls: CharClass, s: string)
    ensures Matches(Plus(Class(cls)), s) <==> |s| > 0 && AllIn(cls, s)
    decreases |s|
  {
    var re := Plus(Class(cls));
    if |s| > 1 {
      PlusOfClass(cls, s[1..]);
      if Matches(re, s) {
        assert !Matches(Class(cls), s);
        var i :| 0 < i < |s| && Matches(Class(cls), s[..i]) && Matches(re, s[i..]);
        assert i == 1;
        assert forall k | 1 <= k < |s| :: s[k] == s[1..][k - 1];
      }
      if AllIn(cls, s) {
        assert AllIn(cls, s[1..]) by {
          forall k | 0 <= k < |s| - 1 ensures InClass(cls, s[1..][k]) {
            assert s[1..][k] == s[k + 1];
          }
        }
        assert Matches(Class(cls), s[..1]) && Matches(re, s[1..]);
      }
    }
  }

  /** `c{n}` accepts exactly the strings of `n` characters of `c`. */
  lemma {:induction false} RepeatOfClass(cls: CharClass, n: nat, s: string)
    ensures MatchesCount(Class(cls), n, s) <==> |s| == n && AllIn(cls, s)
  {
    if n > 0 {
      if MatchesCount(Class(cls), n, s) {
        var i :| 0 <= i <= |s| && Matches(Class(cls), s[..i]) && MatchesCount(Class(cls), n - 1, s[i..]);
        RepeatOfClass(cls, n - 1, s[i..]);
        assert i == 1;
        assert forall k | 1 <= k < |s| :: s[k] == s[1..][k - 1];
      }
      if |s| == n && AllIn(cls, s) {
        assert AllIn(cls, s[1..]) by {
          forall k | 0 <= k < |s| - 1 ensures InClass(cls, s[1..][k]) {
            assert s[1..][k] == s[k + 1];
          }
        }
        RepeatOfClass(cls, n - 1, s[1..]);
        assert Matches(Class(cls), s[..1]) && MatchesCount(Class(cls), n - 1, s[1..]);
      }
    }
  }
}
