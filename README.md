# typer's annotation validator, modelled in Dafny

`validator.py` of typer takes an annotation written as text, such as
`Union[Callable[[], int], int]`, and turns it into a string in which every candidate
name with a non-empty origin is qualified by the allow-listed namespace it comes from:
`typing.Union[typing.Callable[[], builtins.int], builtins.int]`. The string is then
handed to `eval`. The work happens in four steps.

1. **Tokenise.** A regular expression finds the bare identifiers of the annotation and
   skips string literals, which yield an empty capture.
2. **Normalise.** `only` and `seperate_names` keep the distinct non-empty tokens.
3. **Resolve and rewrite.** Each candidate is looked up. Names the resolver rejects
   are collected in `invalid_names`. Names with entity info get an entry in `type_map`.
   In `validated_type`, every occurrence of such a name that is not preceded by `.` or a
   word character and ends at a word boundary (a `.` may follow) is replaced by
   `origin.name`, or by the name itself for an empty origin.
4. **Aggregate.** The rewritten string is evaluated only when no name is invalid. The
   outcome is packed into a `ValidationResult`, whose `is_valid` and `get_origin` give
   a verdict and the origin of a name.

The project has seven modules:

- `Wrappers` (`wrappers.dfy`) holds the `Option` type that the other modules use for a value
  that may be absent.
- `Scanner` (`scanner.dfy`) is a hand-written scanner that behaves as `re.findall` does
  with the pattern at validator.py:86, on ASCII text.
- `ScannerLemmas` (`scanner_lemmas.dfy`) states what the tokens are and how literals hide
  their contents.
- `Rewriter` (`rewriter.dfy`) models the `re.sub` whole-word substitution and its lemmas.
- `Results` (`results.dfy`) holds `ValidationResult` and the final step of `validate_names`.
- `Validator` (`validator.dfy`) holds `only`, the list folds that specify the resolve loop,
  and the class `TypeValidator` with the methods `SeparateNames` and `ValidateNames`.
- `Examples` (`examples.dfy`) is the scenario of the usage script examples.py, with the output its
  comments report, and the tokens of five small annotations.

The foreign library `safelib` and Python's `eval` are parameters of `ValidateNames`:

- `valid(name)` stands for `safelib.valid(importer.get_entity(name))`.
- `info(name)` stands for `safelib.get_entity_info(name)`. It gives `None` for a falsy
  answer and `Some(origin)` otherwise, with `""` for a falsy origin.
- `eval(text)` returns a value or raises an error.

Two behaviours of the code may look unintended; the model follows the code. The substitution
pattern at validator.py:174 has no "not followed by `.`" lookahead, unlike the tokenizer. So
when `int` is a candidate, `int.real` becomes `builtins.int.real`
(`Examples.AttributeAccessRewritten`). The substitution is driven by the entity info alone,
so a name the resolver rejects is still rewritten when it has entity info (`Validator.Rewritten`).

## Model

| member | source | states |
|---|---|---|
| Scanner.WordEnd | validator.py:86 | the identifier body `[a-zA-Z0-9_]*` is the longest run of word characters: every character before the end is one, the character at the end is not |
| Scanner.PrefixEnd | validator.py:86 | the `[bfr]*` prefix is the longest run of prefix letters from the position |
| Scanner.TripleClose | validator.py:86 | the lazy `.*?` of a triple-quoted literal stops at the first closing triple quote, with no newline and no earlier triple quote before it; no match when a newline or the end comes first |
| Scanner.QuotedClose | validator.py:86 | a one-quote literal ends at its quote character, and what lies between the quotes is made of characters other than the quote and the backslash, and of backslash escapes of any character but a newline |
| Scanner.LiteralAt | validator.py:86 | a literal found at a quote is a closed triple-quoted or one-quote literal of that quote |
| Scanner.MatchAt | validator.py:86 | a match at a position starts there and is non-empty; a match with an empty capture is a prefixed literal; any other match is a bare identifier that captures itself |
| Scanner.Matches | validator.py:86 | the matches of the left-to-right search are in order and do not overlap; each is a literal with an empty capture or a bare identifier that captures its own text |
| Scanner.FindAll | validator.py:111 | `findall` gives one capture per match, and each capture is empty or an identifier |
| ScannerLemmas.TokensAreBareIdentifiers | validator.py:86 | every non-empty token is an identifier that occurs in the annotation with no word character or `.` right before it and no `.` or word character right after it |
| ScannerLemmas.EmptyCaptureIsLiteral | validator.py:86 | a match captures `""` exactly when it spans a prefixed string literal |
| ScannerLemmas.BareIdentNotLiteral | validator.py:86 | no span is both a bare identifier and a prefixed literal: the prefix run of an identifier ends on a word character, never on a quote |
| ScannerLemmas.IdentifierRescansToItself | validator.py:126 | scanning an identifier on its own gives exactly that identifier, so `find_names(name)` never splits a candidate |
| ScannerLemmas.MatchFound | validator.py:86 | where the pattern matches, `findall` reports that match first and resumes at its end |
| ScannerLemmas.NoMatchAt | validator.py:86 | where the pattern does not match, `findall` moves on by one character |
| ScannerLemmas.SearchStep | validator.py:86 | one step of the search moves past the match at the position, or past one character, and every later match is still found |
| ScannerLemmas.QuoteFreeStretch | validator.py:86 | no match that starts in a stretch without quotes ending on a non-word character reaches past it, so the search passes through its end |
| ScannerLemmas.SearchReaches | validator.py:86 | the search from a position reaches a bare identifier after it when no quote lies between them and the identifier's own prefix letters open no literal (in `b"x"` the `b` belongs to the literal) |
| ScannerLemmas.BareIdentMatched | validator.py:86 | a bare identifier whose prefix letters open no literal is the match at its position, capturing itself |
| ScannerLemmas.PassedTokenFound | validator.py:111 | once the search has passed through a position, a bare identifier after it with no quote in between is a token, unless its prefix letters open a literal |
| ScannerLemmas.TokenOfMatch | validator.py:111 | the capture of every match of the search is in the list `findall` returns |
| ScannerLemmas.IdentMatchAt | validator.py:86 | where no literal follows the prefix letters, a match is an identifier with no word character or `.` before it, taken to the end of its word, and not followed by `.`; there is no other match |
| ScannerLemmas.QuoteFreeHasNoEmptyToken | validator.py:86 | text without quotes yields no empty capture |
| ScannerLemmas.QuoteFreeFindsOccurrence | validator.py:86 | in text without quotes, every bare occurrence of an identifier is found |
| ScannerLemmas.QuoteFreeTokens | validator.py:86 | in text without quotes, the tokens are exactly the identifiers that occur bare, in both directions |
| ScannerLemmas.QuotedCloseAfterBody | validator.py:86 | the scan of a one-quote literal whose body follows the grammar stops at the quote right after the body |
| ScannerLemmas.QuotedCloseSkip | validator.py:86 | the scan of a one-quote body moves past a character other than the quote and the backslash |
| ScannerLemmas.QuotedCloseEscape | validator.py:86 | the scan of a one-quote body moves past a backslash and the character after it when that character is not a newline |
| ScannerLemmas.NoTripleBeforeBody | validator.py:86 | a one-quote literal with a non-empty well-formed body, or an empty one not followed by a third quote, does not open with three quotes |
| ScannerLemmas.QuotedLiteralAt | validator.py:86 | such a literal is the literal found at its quote, ending right after its closing quote |
| ScannerLemmas.QuotedLiteralHidden | validator.py:86 | a prefixed one-quote literal with a well-formed body is a single match with an empty capture, and the search resumes after its closing quote, so nothing inside it, escapes included, becomes a token |
| ScannerLemmas.QuotedLiteralPasses | validator.py:86 | the search passes through a prefixed one-quote literal it reaches, so the names after the literal are found as if it were not there |
| ScannerLemmas.PrefixEndIsRun | validator.py:86 | the prefix run ends at the first character that is not `b`, `f` or `r` |
| ScannerLemmas.WordEndIsRun | validator.py:86 | the identifier body ends at the first character that is not a word character |
| ScannerLemmas.TripleCloseAfterBody | validator.py:86 | the lazy search for a closing triple quote finds the first one after a body on one line |
| ScannerLemmas.TripleLiteralAt | validator.py:86 | a triple-quoted literal on one line is the literal found at its first quote, ending after the first closing triple quote |
| ScannerLemmas.TripleLiteralHidden | validator.py:86 | a prefixed triple-quoted literal on one line is a single match with an empty capture, and the search resumes after it |
| ScannerLemmas.TripleLiteralPasses | validator.py:86 | the search passes through a prefixed triple-quoted literal on one line that it reaches |
| ScannerLemmas.UnclosedQuoteSkipped | validator.py:86 | a quote that opens no closed literal hides nothing: the search moves past that one character only |
| Rewriter.Qualified | validator.py:164-171 | the replacement text: `origin.name` for a non-empty origin, the name itself for an empty one (definition; that an empty origin leaves `validated_type` unchanged is `Rewriter.SubstituteIdentity` and `Validator.RewrittenByQualifyingOnly`) |
| Rewriter.SiteAt | validator.py:174 | a site is an occurrence of the name with no `.` or word character before it and a word boundary after it, a `.` allowed (definition) |
| Rewriter.SubFrom | validator.py:173-175 | the left-to-right rewrite: a site is replaced and the scan resumes after it, any other character is copied (definition) |
| Rewriter.Substitute | validator.py:173-175 | `re.sub` of the site pattern over the whole text (definition) |
| Rewriter.SitesDisjoint | validator.py:174 | two sites of the same name never overlap |
| Rewriter.SubCopiesUpTo | validator.py:173-175 | text that holds no site is copied unchanged |
| Rewriter.SubstituteWithoutSite | validator.py:173-175 | a text without a site of the name is left as it is |
| Rewriter.SubstituteFirstSite | validator.py:173-175 | the result is the text before the first site, then the replacement, then the rewrite of the rest: only sites change |
| Rewriter.SubFromIdentity | validator.py:170-175 | replacing every site by the name itself changes nothing |
| Rewriter.SubstituteIdentity | validator.py:170-175 | the rewrite for an empty origin leaves `validated_type` as it was |
| Rewriter.SiteInLeft | validator.py:174 | before a boundary character, a site of a joined text is a site of its left part |
| Rewriter.SiteInRight | validator.py:174 | after a boundary character, a site of a joined text is a site of its right part |
| Rewriter.SubFromRight | validator.py:173-175 | after a boundary, the rewrite of a joined text is the rewrite of its right part |
| Rewriter.SubFromLeftStep | validator.py:173-175 | one step of the rewrite is the same in a text and in that text followed by more, up to a boundary |
| Rewriter.SubFromLeft | validator.py:173-175 | before a boundary, the rewrite of a joined text is the rewrite of its left part followed by the rewrite of its right part |
| Rewriter.SubstituteConcat | validator.py:173-175 | two texts joined at a character that is neither a word character nor `.` are rewritten independently |
| Rewriter.SubstituteWithoutInitial | validator.py:173-175 | a text without the first letter of the name is left unchanged |
| Rewriter.SubstituteLeadingName | validator.py:173-175 | a text that opens with the name followed by a non-word character, and goes on with word characters and dots only, is rewritten at its start alone: the name is replaced and the rest is kept, `.real` in `int.real` included |
| Results.ValidationResult | validator.py:12-40 | the result record with its five fields `validated_type`, `errors`, `pytype`, `invalid_names` and `type_map` (definition) |
| Results.Finish | validator.py:177-204 | `validated_type` and `type_map` are passed through; `eval` runs only when `invalid_names` is empty; `errors` holds at most one entry, which is the captured exception, and `pytype` is then None; with invalid names, `pytype` is None and `errors` is empty; `is_valid` holds exactly when there is no invalid name and `eval` returned a value other than None |
| Results.ValidationResult.IsValid | validator.py:46-60 | `__bool__` and `is_valid`: no invalid name and a `pytype` other than None (definition) |
| Results.ValidationResult.GetOrigin | validator.py:62-72 | `get_origin`: the `type_map` entry of the name, or None (definition) |
| Validator.BuiltinNamespaces | validator.py:9 | `BUILTIN_NAMESPACES`: `builtins`, `typing` and `typing_extensions` (definition) |
| Validator.Only | validator.py:89-99 | `only` returns no duplicates and no empty string, and holds exactly the non-empty elements of its input |
| Validator.GuardNeverFires | validator.py:154 | the `continue` guard never holds for a candidate, since an identifier has no `.` |
| Validator.InvalidNames | validator.py:153-158 | `invalid_names` after resolving the candidates in order: a rejected name is inserted at the front (definition) |
| Validator.TypeMap | validator.py:160-172 | `type_map` after resolving the candidates in order: an entry for each name with entity info, holding its origin (definition) |
| Validator.Rewritten | validator.py:160-175 | `validated_type` after resolving the candidates in order: each name with entity info is substituted by its qualified form, whatever its validity (definition) |
| Validator.InvalidNamesMembers | validator.py:153-158 | `invalid_names` holds exactly the candidates the resolver rejects; resolving one name never stops the others |
| Validator.InvalidNamesNoDup | validator.py:156-158 | each rejected candidate is listed once |
| Validator.RejectedAppend | validator.py:156-158 | the rejected names of a longer candidate list extend those of the shorter list |
| Validator.ReverseAppend | validator.py:158 | reversing a join reverses and swaps the parts |
| Validator.InvalidNamesReversed | validator.py:158 | insertion at the front lists the rejected candidates in reverse processing order |
| Validator.TypeMapExact | validator.py:160-172 | `type_map` maps exactly the candidates with entity info, each to its origin, with `""` for an empty origin; whatever the processing order |
| Validator.RewrittenByQualifyingOnly | validator.py:160-175 | only names with a non-empty origin change `validated_type`: a name without entity info is skipped, and one with an empty origin is replaced by itself |
| Validator.OriginsReported | validator.py:62-72 | `get_origin` gives the origin of a candidate with entity info and None for any other name |
| Validator.TypeValidator.constructor | validator.py:80-84 | the annotation must be non-empty, and `validated_type` starts equal to it |
| Validator.TypeValidator.FindNames | validator.py:101-111 | with no argument or an empty one, the tokens of the whole annotation; with a non-empty argument, the tokens of the argument; an identifier comes back alone |
| Validator.TypeValidator.SeparateNames | validator.py:113-130 | the loop that pops while enumerating still returns exactly the distinct non-empty tokens of the annotation, with no duplicates, all of them identifiers |
| Validator.TypeValidator.ValidateNames | validator.py:132-204 | the candidates are the distinct non-empty tokens; `validated_type` is the rewrite of the old value by the candidates in order; `invalid_names` is the reversed list of rejected candidates, each once; `type_map` and `get_origin` follow the entity info; the result is what `Finish` builds; `is_valid` holds exactly when every candidate is valid and `eval` returned a value other than None |
| Examples.UnionAnnotationPieces | examples.py:3 | the pieces the other examples use join to the annotation of the script |
| Examples.IntInUnion | validator.py:173-175 | the `i` inside `Union[` is not a site of `int` |
| Examples.IntInsideWordKept | validator.py:174 | the `int` inside `PrintHandler[` follows a word character, so `(?<!\w)` keeps it unchanged |
| Examples.IntAfterDotKept | validator.py:174 | the `int` of `x.int` follows a `.`, so `(?<!\.)` keeps it unchanged |
| Examples.IntBeforeBracket | validator.py:173-175 | `int]` becomes `builtins.int]` |
| Examples.CallableBeforeBracket | validator.py:173-175 | `Callable[` becomes `typing.Callable[` |
| Examples.UnionBeforeBracket | validator.py:173-175 | `Union[` becomes `typing.Union[` |
| Examples.IntRewrite | examples.py:3 | rewriting `int` in the annotation qualifies both of its bare occurrences |
| Examples.CallableRewrite | examples.py:3 | rewriting `Callable` next qualifies its one occurrence |
| Examples.UnionRewrite | examples.py:3 | rewriting `Union` last qualifies the leading name |
| Examples.RewrittenAfterInt | examples.py:3 | `validated_type` after the first candidate |
| Examples.RewrittenAfterCallable | examples.py:3 | `validated_type` after the second candidate |
| Examples.UnionRewritten | examples.py:11 | with the origins of the script and the order of its `type_map`, the annotation becomes `typing.Union[typing.Callable[[], builtins.int], builtins.int]` |
| Examples.UnionTypeMap | examples.py:13 | the `type_map` of the script: `int` to `builtins`, `Callable` and `Union` to `typing` |
| Examples.AttributeAccessRewritten | validator.py:174 | the substitution qualifies a name that a `.` follows: `int.real` becomes `builtins.int.real` |
| Examples.UnionNeverBare | validator.py:86 | in `typing.Union[int, str]` the name `Union` never stands bare: a `.` comes before it |
| Examples.TypingNeverBare | validator.py:86 | in `typing.Union[int, str]` the name `typing` never stands bare: a `.` comes after it |
| Examples.UnionAfterDotSkipped | validator.py:111 | `Union` is not a token of `typing.Union[int, str]` |
| Examples.TypingBeforeDotSkipped | validator.py:111 | `typing` is not a token of `typing.Union[int, str]` |
| Examples.IntArgumentFound | validator.py:111 | `int` is a token of `typing.Union[int, str]` |
| Examples.StrArgumentFound | validator.py:111 | `str` is a token of `typing.Union[int, str]` |
| Examples.TokenBeforeLiteral | validator.py:111 | `int` is a token of `Annotated[int, "meta"]`, ahead of the literal |
| Examples.LiteralPassed | validator.py:86 | in the union of `Literal["a"]` and `int`, the search passes through `Literal[` and then through the literal |
| Examples.TokenAfterLiteral | validator.py:111 | `int` is a token of that union, after the literal |
| Examples.LiteralIntMatches | validator.py:86 | the search over `Literal["int"]` finds `Literal`, then the whole literal, and nothing else |
| Examples.LiteralHidesName | validator.py:111 | `findall` of `Literal["int"]` is `["Literal", ""]`: the `int` inside the quotes is no token |
| Examples.TripleLiteralMatched | validator.py:86 | the raw triple-quoted literal at the start of `r'''int''' str` is one match with an empty capture, and the search resumes after it |
| Examples.TripleHidesName | validator.py:111 | `findall` of `r'''int''' str` is `["", "str"]`: the `int` inside the triple quotes is no token |

## Left out

- `safelib`'s `Import`, `get_entity`, `valid` and `get_entity_info` are a foreign library. They are the parameters `valid` and `info`. The type of `info` admits only no entity info or an origin, so the exception that `origin, _ = entity` at validator.py:164 raises when a truthy answer does not unpack into exactly two values is not modelled.
- `eval` and the runtime objects of `typing`, `typing_extensions` and `builtins` cannot be modelled. `eval` is the parameter `eval`, and type values are opaque. An exception that is not an `Exception` would escape `validate_names`; the model does not have one.
- Pydantic's `BaseModel` machinery and `model_config` are library plumbing. `ValidationResult` is a plain datatype.
- The `print` at validator.py:167 is output only.
- `\w` and `[a-zA-Z_]` are taken on ASCII only. Unicode word characters are not modelled.
- The tokenizer is a dedicated scanner, not a general regular-expression engine. Its agreement with Python's `re` rests on a hand derivation of the pattern's backtracking, recorded in the comments of `Scanner.PrefixEnd`, `Scanner.QuotedClose`, `Scanner.TripleClose` and `Scanner.MatchAt`.
- Validator.Only: Python's `set` gives the names in hash order. The model keeps first occurrences in order, and its contract promises the set and no duplicates but no order. `ValidateNames` is proved for whatever order `SeparateNames` returns.
- The `continue` guard at validator.py:154 never holds (`Validator.GuardNeverFires`), so the loop of `ValidateNames` has no such branch.
- Validator.TypeValidator.constructor: the `assert` at validator.py:81 becomes a precondition. Under `python -O` the assertion is dropped and an empty annotation is accepted; the model does not cover that.
- `get_entity_info` returning a falsy value and returning an entry with a falsy origin are the only distinctions the code makes. `None` and `""` as origins are merged into `""`, since both lead to the same `type_map` entry and the same rewrite.
- The `re.sub` replacement string is taken literally. With an identifier and an allow-listed origin it holds no backslash or group reference, so template escapes never arise.
- The independence of the result from the processing order is not claimed. If an origin such as `typing` also occurs bare in the annotation, a later substitution can hit a prefix inserted earlier.
- The concrete example writes the annotation as the join of short pieces. A literal of that length is too costly for the solver to evaluate in one go. `Examples.UnionAnnotationPieces` proves that the join equals the annotation.
- The full token list of the annotation of examples.py, `Union[Callable[[], int], int]`, is not evaluated, for the same cost reason. The tokens of shorter annotations are stated (`Examples.UnionAfterDotSkipped` to `Examples.TripleHidesName`), and the general lemmas `ScannerLemmas.TokensAreBareIdentifiers`, `ScannerLemmas.QuoteFreeTokens` and `ScannerLemmas.PassedTokenFound` state which names are tokens.
- For text with literals, a bare identifier is proved to be a token once the search is shown to pass through the literals before it (`ScannerLemmas.QuotedLiteralPasses`, `ScannerLemmas.TripleLiteralPasses`). There is no single closed-form list of the tokens of an arbitrary text, and one case has no such lemma: three quotes with no closing triple on their line, where the one-quote form takes over and matches the empty literal `""` of the first two.
- The record `Results.ValidationResult`, the constant `Validator.BuiltinNamespaces`, `ValidationResult.IsValid`, `ValidationResult.GetOrigin`, the folds `Validator.InvalidNames`, `Validator.TypeMap` and `Validator.Rewritten`, and `Rewriter.SiteAt`, `SubFrom` and `Substitute` are definitions without a contract of their own. What they compute is stated by the lemmas about them (`Results.Finish`, `Validator.OriginsReported`, `Validator.InvalidNamesMembers`, `Validator.TypeMapExact`, `Validator.RewrittenByQualifyingOnly`, the `Rewriter` lemmas) and by `ValidateNames`.
