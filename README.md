# gncli core, modelled in Dafny

gncli.py is a command-line wrapper around the GnuCash accounting library. Almost all of
it calls into that library. This project models the parts of it that have their own logic:

- `gnc_numeric_from_decimal` (`Numeric`). It turns a Python `Decimal`, given by its
  `as_tuple()` (sign, digits, exponent), into a GnuCash rational `num/den`. The numerator is
  built by a least-significant-first place-value loop. The sign goes on the numerator. A
  negative exponent becomes a power-of-ten denominator, and a non-negative one scales the
  numerator. The method is proved against the decimal's exact value. Nothing is reduced, so
  1.50 becomes 150/100. The loop's result is `int()` of the joined digit characters, as the
  source's comment claims.
- The `is_new` / `ignore_lock` flag parsing inside `start_session` (`Flags`). It computes
  `str(x).lower()` and looks the result up in fixed true and false word lists. A Python bool
  argument parses to itself.
- The module-global `session` and its two operations `start_session` and `end_session`
  (`Session.Gncli`). The checks run in the source's order, each with its own error tag. A
  failure never changes `session`. `session` is set only when the backend opens the book,
  and cleared only when a save succeeds.
- `parse_gnucash_backend_exception` (`BackendMessage`). It is modelled as the match of its
  regular expression: the lazy first group stops at the first separator. The parse returns the
  text after that separator and reads back any message built that way. A message that does
  not match makes the source crash with AttributeError (`None.groups()`), and the model
  returns `None` for it. On a match there are always two groups, so the source's `''` branch
  is dead.
- `sint` (`Strings`). It parses ASCII digits with an optional sign, and gives `None` where
  `int()` raises ValueError. Its partner is `str()` of an integer. `sint` reads back every
  such string, and `str()` writes back every literal in that canonical form.
- The `Error` exception class, as the datatype `Errors.Error(tag, message, data)`.
  `Errors.Raised` separates that exception from Python exceptions that escape uncaught
  (NameError, AttributeError). The IndexError of the `__main__` block is a
  `Cli.Run.Crash`.
- The `__main__` block (`Cli.RunCli`). It maps the argument list and the two backend
  outcomes to the printed lines and exit status, or to an uncaught exception.

The source is Python 2 (`print` statements), so `str.lower()` on a byte string folds ASCII
letters only, under the default C locale. That is what `Strings.Lower` models. The GnuCash calls are not modelled. The
caller passes each one in as a `BackendOutcome`: success, or a backend exception carrying its
message.

Line 82 tests `hasattr(app, ...)`, but `app` is not defined in gncli.py. So when all three
arguments of `start_session` are the empty string, the call raises NameError, and
`StartSession` models exactly that. For every other input this line has no effect.

## Model

| member | source | states |
|---|---|---|
| `Numeric.GncNumericFromDecimal` | gncli.py:162-191 | num/den equals (-1)^sign × digits × 10^exponent; den is 10^(-exponent) for a negative exponent and 1 otherwise (no reduction, den ≥ 1); the numerator is negative iff the sign is set and the digits are non-zero, and zero iff the digits are |
| `Numeric.DigitsValuePrepend` | gncli.py:173-177 | one loop step: putting a digit in front of a suffix adds digit × 10^(length of suffix), so the accumulator equals the value of the digits processed so far |
| `Numeric.DigitsValue` | gncli.py:166-177 | the value of a digit tuple lies in [0, 10^n) |
| `Numeric.DecimalValueOfDigitString` | gncli.py:165-169 | reading the digit characters gives the same number as the digit tuple |
| `Numeric.NumeratorIsIntOfDigitString` | gncli.py:165-169 | the accumulated numerator equals `int(''.join(digits))` for a non-empty tuple |
| `Numeric.NoReductionExamples` | gncli.py:182-191 | Decimal('1.50') becomes 150/100 (trailing zeros kept) and Decimal('-0.00') becomes 0/100 (the sign lives only in the numerator) |
| `Digits.Pow10` | gncli.py:183-189 | every power of ten used as a denominator or scale is at least 1 |
| `Digits.DecimalValue` | gncli.py:156-160 | the value `int()` gives a digit string is below 10^(its length) |
| `Strings.Lower` | gncli.py:91 | `lower()` keeps the length and folds each character independently |
| `Strings.LowerIdempotent` | gncli.py:91-105 | lower-casing an already lower-cased string changes nothing |
| `Strings.Sint` | gncli.py:156-160 | a string is accepted iff it is an optional sign followed by one or more ASCII digits, and then its value is the digits' value, negated after a '-'; every other string gives None (a string without any digit in particular) |
| `Strings.NatToString` | gncli.py:156-160 | `str()` of a natural number is a non-empty digit string with that value and no leading zero |
| `Strings.SintOfIntToString` | gncli.py:156-160 | `sint(str(n)) == n` for every integer n |
| `Strings.SintSign` | gncli.py:156-160 | a leading '+' does not change the value and a leading '-' negates it |
| `Strings.NatToStringOfCanonical` | gncli.py:156-160 | a digit string without a leading zero (or "0") is exactly `str()` of its value |
| `Strings.SintCanonical` | gncli.py:156-160 | `str(sint(s)) == s` for every literal written as `str` writes it (no '+', no leading zero, not "-0") |
| `Flags.ParseFlag` | gncli.py:91-105 | true iff the lower-cased string is in {true, 1, t, y, yes}, false iff it is in {false, 0, f, n, no}, and a failure for every other value |
| `Flags.ParseFlagOfBool` | gncli.py:91-102 | a Python bool argument parses to itself (`str(True).lower() == 'true'`) |
| `Flags.ParseFlagIgnoresCase` | gncli.py:91-105 | a string parses the same as its lower-cased form |
| `Flags.ParseFlagUpperCase` | gncli.py:91-105 | 'YES' parses to true, 'No' to false, and '' is rejected |
| `BackendMessage.FirstOccurrence` | gncli.py:150 | the position found holds the pattern and no earlier position at or after the start does; None means it occurs nowhere there |
| `BackendMessage.MatchGroups` | gncli.py:150-151 | a match always has exactly two newline-free groups that rebuild the message as "call to " + g1 + separator + g2, possibly with one trailing newline |
| `BackendMessage.ParseGnucashBackendException` | gncli.py:148-154 | a message not starting with "call to " does not parse; a parsed code has no newline and is shorter than the message by at least the prefix and separator |
| `BackendMessage.FirstSeparatorOf` | gncli.py:150 | in "call to " + a + separator + b, the first separator is the one after a when none starts inside a |
| `BackendMessage.ParseOfComposedMessage` | gncli.py:148-154 | "call to " + a + separator + b (with or without a final newline) parses to b |
| `BackendMessage.FirstGroupHidesNoSeparator` | gncli.py:150 | the lazy first group contains no start of the separator |
| `BackendMessage.ParsedMessageShape` | gncli.py:148-154 | every message that parses is "call to " + a + separator + result (possibly plus a newline), with the separator first found after a |
| `Session.BackendFailure` | gncli.py:114-120 | a backend exception becomes a GnuCashBackendException error carrying the message and its parsed code, or an AttributeError when the message does not parse |
| `Session.Gncli.constructor` | gncli.py:74-75 | the module starts with no session |
| `Session.Gncli.StartSession` | gncli.py:77-122 | checks in order: all-blank arguments → NameError, empty connection string, is_new, ignore_lock, an existing session, then the backend; `session` becomes the new session only on success and is otherwise unchanged |
| `Session.Gncli.EndSession` | gncli.py:124-146 | no session → SessionDoesNotExist; a failed save raises and keeps the session; a successful save clears it |
| `Cli.RunOfFailure` | gncli.py:216-221 | an Error prints its message and exits with status 2; any other exception escapes as that same exception |
| `Cli.RunCli` | gncli.py:201-230 | the usage message with status 2 for no arguments, IndexError for fewer than three, "Type not found" / "Command not found" with status 0, and for `book new` the start/save outcome or "New book created" with status 0 |

## Left out

- The GnuCash library: `gnucash.Session(...)`, `save()`, `end()`, `destroy()`, `GncNumeric` and the QOF and business imports are foreign calls. Opening and saving are supplied as outcomes. `end()` and `destroy()` after a successful save are taken to succeed.
- Numeric.GncNumericFromDecimal: does not model the 64-bit width of GnuCash's numerator and denominator (`gint64`). The model returns the exact pair, for example 10^19/1 for Decimal('1E19'), which `GncNumeric(numerator, denominator)` at gncli.py:191 cannot hold.
- The fallback to `app.connection_string` (gncli.py:82-85). `app` is undefined in this file, so the branch can only raise NameError, and that is what is modelled.
- Decimal special values (NaN, Infinity): their `as_tuple()` exponent is not an integer, and `gnc_numeric_from_decimal` is not meant for them.
- Strings.Sint: does not model the rest of Python's `int()` grammar (surrounding whitespace, Unicode digits) or the TypeError raised for non-string arguments. The model accepts exactly an optional sign followed by ASCII digits.
- Strings.Lower: folds ASCII letters only, as Python 2's `str.lower()` does for byte strings under the default C locale (it is locale-dependent). Python 2 `unicode.lower()` is not modelled. No non-ASCII character lower-cases to a letter of the flag words, so the flag parse is unaffected.
- BackendMessage.MatchGroups: models only this one pattern under `re.match`, not general regular expressions. It does model that `.` excludes newlines and that `$` matches before a final newline.
- Cli.RunCli: output is the list of printed lines, without stdout buffering or the traceback Python prints for an uncaught exception.
