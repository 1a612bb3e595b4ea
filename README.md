# Reference utilities of datamodel-code-generator, modelled in Dafny

The code generator turns input schemas into source files. This project models
two of its small, stateless helpers from `datamodel_code_generator.reference`.

- `get_relative_path(base, target)` writes `target` relative to `base`. The
  generator uses it to build import paths between generated modules. The
  result is one `..` for each base segment past the longest common prefix,
  then the target's remaining segments. Identical paths give `.`. An
  absolute base with a relative target returns the target unchanged.
- `camel_to_snake(identifier, disallow_single_symbols)` turns camelCase or
  PascalCase names into snake_case field names. It cuts the name into tokens
  at case boundaries. With the flag set, it merges each run of one-letter
  tokens into the token that follows. It then lower-cases the tokens and
  joins them with `_`.

The only evidence of the two functions' behaviour is the parametrised test
vectors in `tests/test_reference.py`. The implementation file
`datamodel_code_generator/reference.py` is not part of this model. So each
function is a specification-level definition that every asserted vector
satisfies, with its general laws proved.

Files:

- `relative_path.dfy`, module `RelativePath`. A path is a `Path(anchor,
  segments)` value. The anchor is `Unanchored`, `PosixRoot` or `Drive(c)`.
  The result is a sequence of components. The empty sequence stands for the
  path `.`, as in pathlib, where `PurePath(".")` has no parts. `Resolve`
  follows a relative result from a location lexically. It is the partner
  that states what a result means.
- `case_conversion.dfy`, module `CaseConversion`. `Tokenize` cuts at the
  boundaries defined by `IsBoundary`. `WellTokenised` states the token shapes
  independently: a word has at most one leading capital followed by
  non-capitals, and only the last token may be an acronym run (all
  capitals). Two lemmas show that `Tokenize` is the one tokenisation with
  that shape. `MergeSingles` applies the flag, and `Join` of `LowerAll`
  renders the result.
  `IsMergeGrouping` describes the merge independently. The tokens are grouped
  into runs of one-letter tokens, each closed by a longer token, and
  ungrouped one-letter tokens may appear only at the end. The merge joins
  each group into one token.

Tokenisation rule: a boundary falls before a capital when the character
before it is not a capital, or when capitals do not run from it to the end
of the string. So `podIPs` gives `pod`, `I`, `Ps`, and `IP` stays whole. The
tests do not fix any other case. For a run of three or more capitals
followed by lower case, the model gives every capital before the last its
own token (`HTTPServer` becomes `H`, `T`, `T`, `P`, `Server`). Only `A`–`Z`
count as capitals.

## Model

| member | source | states |
|---|---|---|
| RelativePath.GetRelativePath | tests/test_reference.py:8-49 | an absolute base with a relative target returns the target's segments unchanged; for paths with the same anchor and a plain target, resolving the result from the base reaches exactly the target |
| RelativePath.CommonPrefixLength | tests/test_reference.py:17-19 | the result is the longest common prefix length: both prefixes of that length are equal, and the next segments differ when both paths continue |
| RelativePath.Parents | tests/test_reference.py:14-16 | `k` components, every one of them `..` |
| RelativePath.ResolveRelativeSegments | tests/test_reference.py:17-19 | resolving the computed relative segments from the base gives back the target's segments, for every base and every target of plain segments |
| RelativePath.ResolveAcrossPrefix | tests/test_reference.py:14-19 | from a base sharing its first `n` segments with a plain target, climbing (base length − n) levels and then descending the remaining target segments reaches the target |
| RelativePath.DivergingPaths | tests/test_reference.py:17-19 | for any maximal common prefix length `n`, the result is `..` repeated (base length − n) times followed by the target's segments after `n`, in order |
| RelativePath.ParentCount | tests/test_reference.py:14-19 | the result has (base length − prefix) `..` components followed exactly by the target's remaining segments, so its length is base + target − 2·prefix |
| RelativePath.RelativeToItself | tests/test_reference.py:11 | every path relative to itself is the empty result, i.e. `.` (also line 33) |
| RelativePath.Descendant | tests/test_reference.py:12-13 | a target that extends the base by `extra` gives exactly `extra`, with no `..` (also lines 34-35) |
| RelativePath.Ancestor | tests/test_reference.py:14-16 | a base that extends the target by `extra` gives only `..` components, one per extra segment (also lines 36-38) |
| RelativePath.AnchorIndependent | tests/test_reference.py:30-49 | the same segment sequences give the same result under any two anchors, so the POSIX and the drive vectors agree |
| RelativePath.VectorSame | tests/test_reference.py:11 | `/a/b` against `/a/b` gives `.`, for any anchor (also line 33) |
| RelativePath.VectorChild | tests/test_reference.py:12 | `/a/b` to `/a/b/c` gives `c` (also line 34) |
| RelativePath.VectorGrandchild | tests/test_reference.py:13 | `/a/b` to `/a/b/c/d` gives `c/d` (also line 35) |
| RelativePath.VectorParent | tests/test_reference.py:14 | `/a/b/c` to `/a/b` gives `..` (also line 36) |
| RelativePath.VectorGrandparent | tests/test_reference.py:15 | `/a/b/c/d` to `/a/b` gives `../..` (also line 37) |
| RelativePath.VectorGreatGrandparent | tests/test_reference.py:16 | `/a/b/c/d` to `/a` gives `../../..` (also line 38) |
| RelativePath.VectorDiverging | tests/test_reference.py:17 | `/a/b/c/d` to `/a/x/y/z` gives `../../../x/y/z` (also line 39) |
| RelativePath.VectorRelativeTarget | tests/test_reference.py:18 | an absolute `/a/b/c/d` with the relative `a/x/y/z` gives `a/x/y/z` unchanged (also line 40) |
| RelativePath.VectorSibling | tests/test_reference.py:19 | `/a/b/c/d` to `/a/b/e/d` gives `../../e/d` (also line 41) |
| CaseConversion.CamelToSnake | tests/test_reference.py:63-67 | the output contains no capital letter, whatever the flag |
| CaseConversion.TokenEnd | tests/test_reference.py:57 | the end of the current token is the first boundary at or after the given position, or the end of the string, with no boundary before it |
| CaseConversion.Tokenize | tests/test_reference.py:55-57 | the tokens are non-empty and concatenate back to the identifier |
| CaseConversion.TokenizeWellTokenised | tests/test_reference.py:55-57 | the tokens have the stated shape: words with at most one leading capital, capitals opening every later token, and only a last, maximal acronym run |
| CaseConversion.TokenisationUnique | tests/test_reference.py:55-57 | any tokenisation of that shape is the one `Tokenize` computes |
| CaseConversion.MergeKeepsCharacters | tests/test_reference.py:57 | merging keeps every character in order, keeps tokens non-empty and never adds tokens |
| CaseConversion.MergeSinglesAtEnd | tests/test_reference.py:57 | after merging, one-letter tokens remain only in a trailing run with nothing after it to merge into |
| CaseConversion.MergeMatchesGrouping | tests/test_reference.py:57 | for any grouping of the tokens into runs of one-letter tokens closed by a longer token, with lone one-letter groups only at the end, merging yields exactly the concatenation of each group |
| CaseConversion.MergeGroupingExists | tests/test_reference.py:57 | every token sequence has such a grouping, so the grouping law describes every merge |
| CaseConversion.MergeOfPodIPs | tests/test_reference.py:57 | merging `pod`, `I`, `Ps` gives `pod`, `IPs`: the lone `I` joins the token after it |
| CaseConversion.MergeWithoutSingles | tests/test_reference.py:56 | without one-letter tokens, merging returns the tokens unchanged (also line 59) |
| CaseConversion.FlagNeedsSingleLetterTokens | tests/test_reference.py:55-60 | when no token has one letter, the flag does not change the result |
| CaseConversion.NoCapitalsUnchanged | tests/test_reference.py:63-67 | an identifier without capitals, e.g. one already in snake_case, comes back unchanged for either flag |
| CaseConversion.OnlySeparatorsInserted | tests/test_reference.py:63-67 | with underscores removed, the output is the input lower-cased with its underscores removed: the conversion only lower-cases and inserts separators |
| CaseConversion.TokensOfIP | tests/test_reference.py:55 | `IP` is a single token |
| CaseConversion.TokensOfPodIPs | tests/test_reference.py:57 | `podIPs` splits into `pod`, `I`, `Ps` |
| CaseConversion.TokensOfSomeCamelCased | tests/test_reference.py:56 | `someCamelCased` splits into `some`, `Camel`, `Cased` |
| CaseConversion.VectorIP | tests/test_reference.py:55 | `IP` becomes `ip` with either flag (also line 58) |
| CaseConversion.VectorSomeCamelCased | tests/test_reference.py:56 | `someCamelCased` becomes `some_camel_cased` with either flag (also line 59) |
| CaseConversion.VectorPodIPsMerged | tests/test_reference.py:57 | `podIPs` with the flag set becomes `pod_ips` |
| CaseConversion.VectorPodIPsSplit | tests/test_reference.py:60 | `podIPs` with the flag clear becomes `pod_i_ps` |

## Left out

- Parsing path strings into `PurePosixPath` or `PureWindowsPath` values is not modelled. Neither is the final comparison of pathlib objects (tests/test_reference.py:25-27, 47-49). Paths enter already split into anchor and segments. Separators, drive-letter case-insensitivity and the normalisation of `.` belong to pathlib, which is not part of this model.
- Pairs of paths outside `Compatible` are not modelled. These are two absolute paths with different anchors (`c:` against `d:`, or POSIX against Windows) and a relative base against an absolute target. No test covers them, so `GetRelativePath` requires compatible paths rather than guessing.
- GetRelativePath: the round trip is stated only for targets whose segments are "plain", that is, never `.` or `..`. Lexical resolution of a literal `..` in the target would climb instead of reproducing it.
- CamelToSnake: no test fixes its behaviour on runs of three or more capitals followed by lower case, on digits, on existing underscores or on non-ASCII letters. The model applies its stated rule to them, and nothing is claimed about agreement with the implementation there.
- The rest of `datamodel_code_generator/reference.py` and the pytest parametrisation machinery are not modelled.
