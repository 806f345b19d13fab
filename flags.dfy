/** The boolean flags `is_new` and `ignore_lock` of `start_session`: a string or a
    Python bool, converted with `str(...)`, lower-cased and looked up in two fixed
    word lists. */
module Flags {
  import opened Errors
  import opened Strings

  /** A Python argument value as `start_session` receives it. */
  datatype Arg = Text(s: string) | Bool(b: bool)

  /** `str(x)`. */
  function PyStr(x: Arg): string {
    match x
    case Text(s) => s
    case Bool(b) => if b then "True" else "False"
  }

  const TrueWords: seq<string> := ["true", "1", "t", "y", "yes"]
  const FalseWords: seq<string> := ["false", "0", "f", "n", "no"]

  /** `str(x).lower()` looked up in the word lists: Some(true), Some(false), or None for
      the values that make `start_session` raise. */
  function ParseFlag(x: Arg): (r: Option<bool>)
    ensures r == Some(true) <==> Lower(PyStr(x)) in TrueWords
    ensures r == Some(false) <==> Lower(PyStr(x)) in FalseWords
    ensures r == None <==> Lower(PyStr(x)) !in TrueWords && Lower(PyStr(x)) !in FalseWords
  {
    var word := Lower(PyStr(x));
    if word in TrueWords then Some(true)
    else if word in FalseWords then Some(false)
    else None
  }

  /** A Python bool passes through unchanged: `str(True).lower()` is "true". */
  lemma ParseFlagOfBool(b: bool)
    ensures ParseFlag(Bool(b)) == Some(b)
  {
    if b {
      assert Lower("True") == "true";
    } else {
      assert Lower("False") == "false";
    }
  }

  /** Case does not matter: a string and its lower-cased form parse alike. */
  lemma ParseFlagIgnoresCase(s: string)
    ensures ParseFlag(Text(s)) == ParseFlag(Text(Lower(s)))
  {
    LowerIdempotent(s);
  }

  /** Examples: upper- and mixed-case flag words parse, and the empty string does not. */
  lemma ParseFlagUpperCase()
    ensures ParseFlag(Text("YES")) == Some(true)
    ensures ParseFlag(Text("No")) == Some(false)
    ensures ParseFlag(Text("")) == None
  {
    assert Lower("YES") == "yes";
    assert Lower("No") == "no";
  }
}
