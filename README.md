# Strict semantic commit-header parser

This project models the strict commit-message parser of `gh-semantic-release`
(`src/scottzach1/semantic_release/githelper.py`). It proves properties of that model in Dafny.

`parse_commit_msg` full-matches a commit message against the header pattern
`<type>[(<scope>)][!]: <subject>`. The parts are:

- the type: one or more of `a`-`z`;
- the scope: one or more of `a`-`z`, `0`-`9` and `-`;
- the breaking marker: a single `!`;
- the subject: one or more characters other than a line feed.

On a match, the function builds a `SemanticMessage` record, and pydantic runs its two field validators:

- the type must be one of twelve listed types;
- the raw `!` group is mapped to a boolean.

There are two errors:

- "does not follow semantic syntax" when nothing matches;
- "Failed to parse" when the shape matches but a field is refused.

The project has four files:

- `wrappers.dfy`: `Option` and `Result`.
- `commit_pattern.dfy` (module `CommitPattern`): the pattern `COMMIT_PAT`. It has two forms:
  - a declarative one: `ValidGroups`, the values each named group may hold, and `Assemble`, the text a match with those groups spans;
  - a deterministic scanner, `FullMatch`, that stands in for `re.fullmatch`.

  Lemmas show that the two forms agree and that a match has exactly one choice of groups. So the regex engine's backtracking cannot change the result.
- `githelper.dfy` (module `GitHelper`): `TYPES` and the `SemanticMessage` record. It also has the validators `_validate_type` and `_validate_breaking`, the pydantic construction `NewSemanticMessage`, and `parse_commit_msg` as `ParseCommitMsg`. `Render` is the inverse of `ParseCommitMsg` on well-formed records. The lemmas state:
  - the round trip in both directions;
  - the three outcomes;
  - the type invariant;
  - the subject and breaking-marker rules;
  - case sensitivity.
- `githelper_cases.dfy` (module `GitHelperCases`): the header cases of `tests/test_git.py` that this code decides. Each case is proved for the whole family it stands for: the header of the test case followed by any subject, or by any remainder.

Python exceptions become `Result` failures:

- `ParseError.NoMatch` is "does not follow semantic syntax".
- `ParseError.InvalidFields(errors)` is "Failed to parse". It carries the field errors of the pydantic `ValidationError` it wraps.

A value handed to the "before" validator of `breaking` is a `PyValue`: `None`, a `bool`, a `str`, or any other value.

## Model

| member | source | states |
|---|---|---|
| CommitPattern.ValidGroups | src/scottzach1/semantic_release/githelper.py:6 | What each named group of `COMMIT_PAT` may hold: a type over `[a-z]+`, an optional non-empty scope over `[a-z0-9-]+`, an optional marker that is exactly `!`, and a non-empty subject without a line feed. So a legal scope text is never `()` and the marker text is at most one character. |
| CommitPattern.Assemble | src/scottzach1/semantic_release/githelper.py:6 | The text a match with given groups spans, `type(scope)!: subject`: it starts with the type, ends with `: ` and the subject, and its length is the sum of its parts. |
| CommitPattern.Matches | src/scottzach1/semantic_release/githelper.py:6 | The language of `COMMIT_PAT`: some legal choice of groups spells out the whole string. Such a string starts with `a`-`z` and is at least four characters long. |
| CommitPattern.Run | src/scottzach1/semantic_release/githelper.py:6 | Greedy `[a-z]+` / `[a-z0-9-]+`: every character up to the result is in the class, and the character at the result is not. So the run is maximal. |
| CommitPattern.ScanScope | src/scottzach1/semantic_release/githelper.py:6 | The optional group `(\((?P<scope>[a-z0-9-]+)\))?`: the text it consumes is exactly `(` + scope + `)`, and any scope it returns is non-empty and over `[a-z0-9-]`. |
| CommitPattern.ScanBang | src/scottzach1/semantic_release/githelper.py:6 | The optional group `(?P<breaking>!)?`: it consumes the marker text, which is only ever `!`. |
| CommitPattern.FullMatch | src/scottzach1/semantic_release/githelper.py:6 | Soundness of the scanner: any groups it returns are legal for the pattern and spell out exactly the input string. |
| CommitPattern.FullMatchComplete | src/scottzach1/semantic_release/githelper.py:6 | Completeness: every string that a legal choice of groups spells out is matched, with exactly those groups. |
| CommitPattern.FullMatchIff | src/scottzach1/semantic_release/githelper.py:45 | `COMMIT_PAT.fullmatch(s)` succeeds exactly when `s` is in the pattern's language. |
| CommitPattern.GroupsUnique | src/scottzach1/semantic_release/githelper.py:6 | A string matches with at most one choice of groups: `[a-z]+` stops at the first non-letter and the scope stops at `)`. |
| CommitPattern.AssembleLayout | src/scottzach1/semantic_release/githelper.py:6 | In a matched string, the part before `: ` is made of `[a-z0-9-()!]` only. That `: ` is the string's first colon, everything after it is the subject, and a `!` can only end the header. It is there exactly when the breaking group matched. |
| CommitPattern.AssembleHasNoNewline | src/scottzach1/semantic_release/githelper.py:6 | No matched string contains a line feed (Python's `.` excludes it, and fullmatch must consume everything). |
| GitHelper.ValidateType | src/scottzach1/semantic_release/githelper.py:19-23 | `_validate_type` accepts exactly the members of `TYPES`, returns the value unchanged, and otherwise reports that type. |
| GitHelper.ValidateBreaking | src/scottzach1/semantic_release/githelper.py:25-33 | `_validate_breaking` maps `True`/`"!"` to true and `False`/`None` to false, and refuses every other value (e.g. `"Nope"`), reporting it. |
| GitHelper.NewSemanticMessage | src/scottzach1/semantic_release/githelper.py:9-33 | Constructing the record succeeds exactly when the type is listed and the breaking value is accepted. Then it keeps type, scope and subject and sets `breaking` by the validator. Otherwise it fails with a non-empty error list that names each refused field and nothing else, the type error before the breaking error. |
| GitHelper.GroupValue | src/scottzach1/semantic_release/githelper.py:47 | The value `match.groupdict()` passes for an optional group: `None` exactly when the group did not take part, and otherwise a `str` from which the group's text is recovered. |
| GitHelper.ParseCommitMsg | src/scottzach1/semantic_release/githelper.py:36-51 | Every returned record is well-formed (listed type, legal scope, non-empty single-line subject) and re-renders to the input. A field-validation failure carries only the type error. |
| GitHelper.TypesAreLowerWords | src/scottzach1/semantic_release/githelper.py:5 | Every listed type is a non-empty word over `a`-`z`, so every listed type can appear in a header. |
| GitHelper.BreakingGroupAccepted | src/scottzach1/semantic_release/githelper.py:25-33 | The breaking validator never fails on the pattern's own output: `None` gives false, `"!"` gives true. |
| GitHelper.ParseRender | src/scottzach1/semantic_release/githelper.py:45-47 | Round trip: parsing the rendering of any well-formed record returns that record. |
| GitHelper.RenderInjective | src/scottzach1/semantic_release/githelper.py:6 | Two well-formed records with the same header are equal, so a header determines its record. |
| GitHelper.UnlistedTypeFailsValidation | src/scottzach1/semantic_release/githelper.py:45-49 | A header of the right shape with an unlisted type fails field validation with the type error only. It is never a no-match. |
| GitHelper.ParseOutcomes | src/scottzach1/semantic_release/githelper.py:45-51 | The three outcomes: no-match exactly when the pattern does not match. Field errors exactly when it matches with an unlisted type. A record exactly when the input renders a well-formed record. The pattern is checked before the fields. |
| GitHelper.NewlineNeverMatches | src/scottzach1/semantic_release/githelper.py:6 | Any message containing a line feed is a no-match. |
| GitHelper.NoLeadingLowerNeverMatches | src/scottzach1/semantic_release/githelper.py:6 | A message that does not start with `a`-`z` is a no-match. This covers an upper-case type (`FIX:`, `FEAT:`), a missing type (`: …`) and a leading symbol (`(ui)fix`, `@feat`). |
| GitHelper.ParsedLayout | src/scottzach1/semantic_release/githelper.py:6-33 | For a parsed message, the subject is everything after the first colon and its single following space, verbatim and non-empty. The header before it holds no colon and no upper-case letter. The message is breaking exactly when a single `!` sits right before `: `. |
| GitHelperCases.TypeOnly | tests/test_git.py:16-23 | `feat: <subject>` parses to a non-breaking `feat` with no scope and that subject. |
| GitHelperCases.WithScope | tests/test_git.py:25-32 | `fix(api): <subject>` parses to `fix` with scope `api`. |
| GitHelperCases.WithBreakingMarker | tests/test_git.py:43-50 | `feat!: <subject>` parses to a breaking `feat`. |
| GitHelperCases.WithScopeAndBreakingMarker | tests/test_git.py:133-140 | `fix(api)!: <subject>` parses to a breaking `fix` with scope `api`. |
| GitHelperCases.NumericScope | tests/test_git.py:238-245 | An all-digit scope `123` is accepted. |
| GitHelperCases.ExtraSpacesKept | tests/test_git.py:356-363 | `feat:   <rest>` parses with subject `"  " + rest`: this code keeps the extra spaces (see "Left out"). |
| GitHelperCases.UnlistedType | tests/test_git.py:389 | `feature: …` fails field validation, not the pattern. |
| GitHelperCases.UnlistedTypeWithScope | tests/test_git.py:409 | `feature(auth): …` fails field validation. |
| GitHelperCases.ReleaseType | tests/test_git.py:256-263 | `release(uv): …` fails field validation: `release` is not in this code's `TYPES`. |
| GitHelperCases.MissingSubjectLine | tests/test_git.py:414 | `feat(ci)` followed by a line feed is a no-match. |
| GitHelperCases.EmptyScope | tests/test_git.py:394 | `feat()…` is a no-match: a scope needs a character. |
| GitHelperCases.UpperCaseScope | tests/test_git.py:399 | `feat(U…` is a no-match: scopes are lower-case. |
| GitHelperCases.SquareBrackets | tests/test_git.py:396 | `fix[…` is a no-match: only parentheses delimit a scope. |
| GitHelperCases.HyphenInType | tests/test_git.py:408 | `fix-…` is a no-match: a hyphen cannot be part of a type. |
| GitHelperCases.UnclosedScope | tests/test_git.py:397 | `feat(ui:…` is a no-match: a scope must be closed. |
| GitHelperCases.ScopeList | tests/test_git.py:402 | `chore(dep-update,…` is a no-match: commas and spaces are not scope characters. |
| GitHelperCases.MarkerWithoutColon | tests/test_git.py:400 | `feat(api)!` followed by anything but `:` is a no-match. |
| GitHelperCases.DoubleMarker | tests/test_git.py:401 | `feat!!…` is a no-match: at most one breaking marker. |
| GitHelperCases.NoSpaceAfterColon | tests/test_git.py:392 | `feat:` followed by anything but a space is a no-match. |
| GitHelperCases.EmptySubject | tests/test_git.py:405 | `feat: ` with nothing after the space is a no-match. |

## Left out

- The text of the two error messages (f-strings with `repr`) is left out. The errors are datatype tags, and `InvalidFields` keeps the field errors instead of pydantic's error objects.
- Pydantic machinery beyond the two validators is left out: the `str`/`bool` coercion of the declared field types, and the handling of missing or extra keyword arguments. `NewSemanticMessage` takes typed type, scope and subject arguments, and only `breaking` as an arbitrary Python value.
- The general regex engine is not modelled. Only `COMMIT_PAT` is hand-coded, as a scanner over `seq<char>`. `[a-z]` and `[a-z0-9-]` are code-point ranges.
- Python strings are modelled as Dafny `string`, a sequence of `char`. A Python `str` may hold lone surrogates (U+D800 to U+DFFF), which the subject's `.` accepts, but a Dafny `char` cannot hold one. So a commit message containing a lone surrogate is outside the model.
- `cli.py` is not part of this model. It only echoes a greeting.
- The tolerant `LegacyMessage` fallback, commit bodies, subject/body trimming, `BREAKING CHANGE` in a body, the `release` type, `SemanticMessage.parse` and the history walker `read_commit_log` are left out. The repository's test suite exercises them, but `githelper.py` implements none of them. This model follows that code. As a result:
  - the code keeps a subject verbatim (`ExtraSpacesKept`), where those tests expect trimming;
  - the code refuses `release` as a type (`ReleaseType`);
  - the code is a no-match on any message with a line feed (`NewlineNeverMatches`), where those tests expect a body.
