# opep: argument validation and document lookup

`opep NUMBER` shows a Python Enhancement Proposal in the terminal. The
proposals ship with the package as markdown files under `peps/`, one per PEP,
named `pep-` + the number zero-padded to four places + `.md`. This project
models the part of the command that decides *which file is opened*:

- the callback of the `NUMBER` argument (`validate_number`). It accepts a token
  when Python's `int()` accepts it, or when the token is exactly `random`. It
  returns the token itself, not the parsed integer. Any other token raises
  `click.BadParameter("Argument should be an integer or 'random'")`;
- the path of a numbered document: `peps/pep-{number.zfill(4)}.md`. `zfill`
  pads the token as it was typed;
- the `random` branch: `random.choice` over what `glob` finds for `*.md` in the
  `peps` directory.

The model is written as pure functions and lemmas, as the source is, in three
modules:

- `PyStr` (pystr.dfy): the ASCII whitespace `int()` skips around a literal
  (CPython's `Py_ISSPACE`: 0x09-0x0D and the space, but not the information
  separators 0x1C-0x1F that `str.isspace()` also counts), the digit class,
  that stripping, and `str.zfill(width)` as CPython computes it. `zfill`
  moves a leading sign in front of the padding.
- `PyInt` (pyint.dfy): the literal syntax base-10 `int()` accepts. That is
  optional whitespace, an optional `+` or `-`, digits with single underscores
  allowed between two digits, then optional whitespace. The module also has
  CPython's default digit limit (4300 digits; a longer literal raises
  `ValueError`), the value `int()` computes, and the decimal rendering
  of an integer (what `str(n)` returns within the digit limit) with the round
  trip `int(str(n)) == n`.
- `Cli` (cli.dfy): the validator, the four-digit key of a PEP number, the path
  construction, the glob filter, the random pick, and the command from raw
  argument to the path it opens.

Randomness is a nondeterministic choice (`Choice`). The directory listing is
a parameter.

Two consequences of the code are easy to miss:

- The code accepts anything `int()` accepts, not only non-negative numbers:
  a sign, surrounding whitespace, underscores and leading zeros all pass the
  validator.
- The code pads the raw token, not its value: `+8` opens `peps/pep-+008.md`,
  `00008` opens `peps/pep-00008.md` and ` 8` opens `peps/pep-00 8.md`.
  `CanonicalKeyIff` states exactly which tokens get the canonical key of
  their value.

## Model

| member | source | states |
|---|---|---|
| `Cli.ValidateNumber` | opep/cli.py:13-21 | accepts exactly the tokens that `int()` parses or that equal `random`; an accepted token is returned unchanged; every other token fails with `BadParameter` carrying the message "Argument should be an integer or 'random'" |
| `Cli.RandomIsNotAnInt` | opep/cli.py:14-19 | `int("random")` fails, so `random` is accepted only by its own equality test, and it is returned unchanged |
| `Cli.ValidateIdempotent` | opep/cli.py:16-19 | validating an accepted output again accepts it and returns the same string |
| `Cli.ValidateAcceptsDecimal` | opep/cli.py:15-16 | the decimal rendering of every integer within the digit limit, which is `str(n)`, is accepted and returned as written |
| `Cli.ValidateKeepsSpelling` | opep/cli.py:15-16 | `+8` and `00008` are accepted and returned with their sign and leading zeros; they are not normalised |
| `Cli.ValidateRejectsForeignCharacter` | opep/cli.py:14-21 | any token other than `random` that holds a character that is not whitespace, a sign, a digit or an underscore is rejected with the `BadParameter` message |
| `Cli.ValidateRejects` | opep/cli.py:20-21 | `abc`, `1.5`, the empty token and `1__0` are rejected with the `BadParameter` message |
| `PyStr.IsIntSpace` | opep/cli.py:15 | defines the whitespace `int()` skips around a literal: 0x09-0x0D and the space, not 0x1C-0x1F |
| `PyInt.IsIntLiteral` | opep/cli.py:15 | defines the syntax `int()` accepts in base 10: optional whitespace, an optional sign, digits with single underscores between digits, optional whitespace |
| `PyInt.DigitCount` | opep/cli.py:15 | counts the decimal digits of a string, never more than its length; `int()` compares this count against the limit `MaxStrDigits` = 4300 |
| `PyInt.ParsesAsInt` | opep/cli.py:15 | defines when `int()` returns instead of raising `ValueError`: a well-formed literal of at most 4300 digits |
| `PyInt.IntValue` | opep/cli.py:15 | defines the value `int()` returns for a literal: the digits' value, underscores ignored, negated after a minus |
| `PyInt.IntToDecimalRoundTrip` | opep/cli.py:15 | the decimal rendering of every integer is a well-formed literal whose `int()` value is that integer; `int()` accepts it exactly within the digit limit, where it is also `str(n)` |
| `PyInt.SeparatorIsNotALiteral` | opep/cli.py:15 | a string that starts or ends with one of 0x1C-0x1F is not a literal; `int("\x1c8")` raises `ValueError` |
| `Cli.ValidateRejectsSeparator` | opep/cli.py:14-21 | a token that starts or ends with one of 0x1C-0x1F, such as `"\x1c8"`, is rejected with the `BadParameter` message |
| `PyInt.ForeignCharacterIsNotALiteral` | opep/cli.py:15 | `int()` refuses a string that holds any character other than whitespace, a sign, a digit or an underscore |
| `PyInt.DoubledUnderscoreIsNotALiteral` | opep/cli.py:15 | `int()` refuses a string with two underscores in a row |
| `PyInt.SignedDigitPart` | opep/cli.py:15 | digits, optionally preceded by one sign, form a literal whose value is the digits' value, negated after a minus |
| `PyInt.SpacedLiteral` | opep/cli.py:15 | whitespace around a literal is ignored: `int(" 8") == 8` |
| `PyInt.PaddedSpacedLiteral` | opep/cli.py:15 | whitespace inside a literal is refused: `int("00 8")` fails |
| `PyInt.DecimalValueLeadingZeros` | opep/cli.py:15 | leading zeros do not change the value of a run of digits |
| `PyInt.NatToDecimalValue` | opep/cli.py:15 | the decimal digits of `n >= 0` denote `n` |
| `PyStr.Strip` | opep/cli.py:15 | the whitespace `int()` skips at both ends of its argument: neither end of the stripped text is whitespace, every non-whitespace character of the input lies inside it, and text without whitespace at its ends is unchanged |
| `PyStr.StripKeeps` | opep/cli.py:15 | a non-whitespace character survives stripping, shifted by the length of the leading whitespace |
| `PyStr.ZFill` | opep/cli.py:35 | the result of `zfill(s, w)` has length `max(len(s), w)` |
| `PyStr.ZFillShape` | opep/cli.py:35 | a string of length at least `w` is unchanged; a shorter unsigned one gets zeros in front; a shorter signed one keeps its sign first, with the zeros between the sign and the rest |
| `PyStr.ZFillKeepsDigits` | opep/cli.py:35 | the last `len(s)` characters of the result are `s` when `s` has no sign; with a sign, the result starts with that sign, ends with the characters after it, and has only zeros between |
| `PyStr.ZFillIdempotent` | opep/cli.py:35 | padding an already padded key again changes nothing |
| `PyStr.ZFillNoSpace` | opep/cli.py:35 | padding adds no whitespace |
| `PyInt.ZFillKeepsValue` | opep/cli.py:35 | padding a literal that holds no whitespace gives a literal with the same `int()` value |
| `PyInt.PaddedSpaceIsNotALiteral` | opep/cli.py:35 | the accepted token ` 8` pads to `00 8`, which is no longer a literal |
| `Cli.PepKey` | opep/cli.py:35 | the four-digit key under which PEP `n` (0 to 9999) is bundled is four digits long |
| `Cli.PepKeyValue` | opep/cli.py:35 | reading a PEP's key back as digits gives the PEP number |
| `Cli.DigitsArePepKey` | opep/cli.py:35 | every four-digit string is the key of the number it spells |
| `Cli.PepPath` | opep/cli.py:35 | the opened path is `peps/pep-` + `zfill(token, 4)` + `.md`, whose length is 12 + `max(len(token), 4)` |
| `Cli.PepPathSameKey` | opep/cli.py:35 | two tokens open the same file exactly when they pad to the same key |
| `Cli.CanonicalKeyIff` | opep/cli.py:35 | an accepted token pads to the canonical four-digit key of its own value exactly when it is at most four plain digits; a sign, whitespace, an underscore or a fifth character gives some other name |
| `Cli.PlainTokenKey` | opep/cli.py:35 | a token of at most four plain digits pads to the key of its value |
| `Cli.DigitKeyToken` | opep/cli.py:35 | a token that pads to four digits is itself at most four digits |
| `Cli.PepPathOfNumber` | opep/cli.py:35 | for PEP numbers 0 to 9999, the token `str(n)` opens `peps/pep-` + key of `n` + `.md` |
| `Cli.DistinctNumbersDistinctPaths` | opep/cli.py:35 | different PEP numbers open different files |
| `Cli.PepPathOfEight` | opep/cli.py:35 | the token `8` opens `peps/pep-0008.md` |
| `Cli.PepPathOddTokens` | opep/cli.py:35 | `-5` opens `peps/pep--005.md`, `+8` opens `peps/pep-+008.md` and `00008` opens `peps/pep-00008.md` |
| `Cli.IsMarkdownName` | opep/cli.py:33 | defines the entries the pattern `*.md` matches: not starting with a dot, ending in `.md` |
| `Cli.GlobMarkdown` | opep/cli.py:33 | every non-hidden listed name that ends in `.md` is found, under `peps/`; everything found is such a name; at most one path per entry |
| `Cli.Choice` | opep/cli.py:33 | `random.choice` returns an element of a non-empty list and raises `IndexError("Cannot choose from an empty sequence")` on an empty one |
| `Cli.ResolvePath` | opep/cli.py:31-35 | a token other than `random` opens exactly `PepPath(token)`; `random` opens one of the globbed markdown files, and fails with `IndexError` exactly when there are none |
| `Cli.Command` | opep/cli.py:24-35 | an invalid argument stops the command with `BadParameter` before any lookup, and only an invalid one does; an integer token opens `PepPath(token)`; `random` opens a bundled markdown file, or fails when there is none |

## Left out

- Reading the file (opep/cli.py:37-38): file I/O. A missing file raises `FileNotFoundError`, as for `20000`, which opens `peps/pep-20000.md`. The model stops at the path.
- `os.path.dirname(__file__)` and `os.path.join` (opep/cli.py:31, 33, 35): platform path plumbing. Paths are plain strings relative to the package directory.
- Rendering the markdown with `rich` into an in-memory console, and `click.echo_via_pager` (opep/cli.py:40-46): third-party libraries and terminal UI.
- The `click` decorators and argument wiring (opep/cli.py:24-27): framework glue. How click prints a `BadParameter` and which exit status it uses are not modelled.
- Non-ASCII text: `int()` also accepts Unicode decimal digits and Unicode whitespace (`\xa0`, `\u3000`, …). The model accepts only ASCII, so it rejects such tokens where Python accepts them.
- The digit limit is fixed at CPython's default of 4300. CPython 3.11 and later, and the 3.7.14, 3.8.14, 3.9.14 and 3.10.7 security releases, refuse more than 4300 digits by default; earlier releases have no limit. The limit can be changed with `PYTHONINTMAXSTRDIGITS` or `sys.set_int_max_str_digits`.
- Choice: states membership only, not that the pick is uniform.
- GlobMarkdown: matches `.md` case-sensitively, as `glob` does on POSIX systems; on Windows `fnmatch` normalises case and would also find names ending in `.MD`. It also ignores that `glob` lists entries in an arbitrary order and matches directories too: the model keeps the order of the given listing and treats every entry as a file name.
