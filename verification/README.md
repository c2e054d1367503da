# vault-action secrets grammar in Dafny

This project models the parser of the `secrets` input of the vault-action
GitHub Action (`action.js`). The input is one string, for example

    secret/data/ci npmToken ; secret/data/ci deploy/key | DEPLOY

It lists references to secrets held in a HashiCorp Vault server. The
parser turns it into an ordered list of records
`{secretPath, secretKey, outputName}`. The model covers:

- `parseSecretsInput` (action.js:42-88). The input is split on `;`.
  Each piece is trimmed, and empty pieces are dropped. In each entry,
  the last `|` introduces an explicit output name, which must not be
  empty once trimmed. The remaining path expression is split on runs of
  white space and must give exactly two tokens, the path and the key.
  Without an explicit name, the name is derived from the key. Any
  malformed entry makes the whole call throw, and no partial list is
  returned.
- `normalizeOutputKey` (action.js:94-96). It replaces the first `/` with
  `__`. Then it removes the first character outside `[A-Za-z0-9_-]`.
  Then it upper-cases. Both replacements act once only, because neither
  pattern is global.

The project has three modules:

- `JsStrings` (jsstrings.dfy) models the JavaScript string operations the
  parser uses. These are `trim`, `split(';')`, `split(/\s+/)`, `indexOf`,
  `lastIndexOf`, the non-global `replace` of a string and of a regular
  expression, and ASCII `toUpperCase`. White space is the exact set that
  ECMAScript uses for both `trim` and `\s`. Each operation comes with the
  facts the parser needs, for example:
  - a trimmed string has no white space at either end;
  - trimming is idempotent;
  - split and join are inverses;
  - the tokens of `a + w + b` are those of `a` followed by those of `b`
    when `w` is white space.
- `SecretsInput` (secrets_input.dfy) models the parser itself. A JS
  `throw` becomes a `Failure` carrying a `ParseError`, which records the
  kind of error and the rejected entry. `Message` renders the text that
  the source throws.
  - The specification functions are `Entries`, `ParseEntry`, `ParseAll`
    and `NormalizeOutputKey`.
  - The source's loop is the method `ParseSecretsInput`. It reassigns
    `path` and `outputName` entry by entry in the helper method
    `ParseSecret`, and grows the output list. It is proved equal to
    `ParseAll(Entries(input))`.
  - Lemmas state what the source promises: order, the two-token rule,
    the explicit-name and derived-name rules, error precedence, no
    partial result, and the exact one-shot normalisation.

- `Scenarios` (scenarios.dfy) works whole inputs through the model:
  - inputs of the form `<path> <key>`, `<path> <key>|<name>` and two
    such entries joined by `;`;
  - white space around `|`;
  - `|` inside the path and the key;
  - an empty name after `|`;
  - entries of the wrong number of words.

Three behaviours of the code that are easy to misread:

- `normalizeOutputKey("a/b/c")` is `"A__BC"`. The second `/` survives
  the first replacement, but the second replacement removes it, because
  `/` is outside `[\w-]`. See `SecretsInput.NormalizeOneShot`.
- A derived output name can be empty. The key `.` normalises to `""`,
  and the entry `path .` still parses, because the code only checks the
  explicit name for emptiness. See `SecretsInput.EmptyDerivedName` and
  `SecretsInput.NormalizeEmptyIff`.
- The truthiness filter before trimming (action.js:45) is kept in the
  model. `SecretsInput.EntriesFirstFilterRedundant` proves that it
  changes nothing.

## Model

| member | source | states |
|---|---|---|
| JsStrings.IsWhitespace | action.js:46-67 | the one white-space set of `trim` and `\s`; it holds no character of `[\w-]`, no `;` and no `\|`, so trimming and splitting on white space never remove a separator or a key character |
| JsStrings.RunEnd | action.js:46 | the end of the white-space run starting at `i`: everything before it is white space, the character at it is not |
| JsStrings.RunStart | action.js:46 | the start of the white-space run ending at `j`: everything after it up to `j` is white space, the character before it is not |
| JsStrings.NextWhitespace | action.js:66 | the first white space at or after `i`, or the end: nothing before it is white space |
| JsStrings.Trim | action.js:46 | `trim` result is no longer than the input and uses only its characters; it is empty exactly when the input is all white space; otherwise it neither starts nor ends with white space; a string without white space is left unchanged |
| JsStrings.TrimUnique | action.js:46 | anything between a white-space prefix and a white-space suffix that starts and ends with non-white space is exactly what `trim` returns |
| JsStrings.TrimBlank | action.js:46 | trimming only white space gives the empty string |
| JsStrings.TrimIdempotent | action.js:46 | trimming twice is the same as trimming once |
| JsStrings.TrimFixed | action.js:46 | a string that neither starts nor ends with white space is its own trim |
| JsStrings.IndexOf | action.js:44 | the search that `Split` (the model of `split(';')`) is built on: -1 exactly when the character is absent, otherwise a position holding it with none before |
| JsStrings.IndexOfIs | action.js:44 | any occurrence with none before it is the one that search finds, so `split(';')` cuts at the first `;` |
| JsStrings.LastIndexOf | action.js:55 | `lastIndexOf`: -1 exactly when the character is absent, otherwise a position holding it with none after |
| JsStrings.LastIndexOfIs | action.js:55 | any occurrence with none after it is the one `lastIndexOf` finds |
| JsStrings.Split | action.js:44 | `split(';')` gives at least one piece, and no piece holds the separator |
| JsStrings.JoinSplit | action.js:44 | joining the pieces of a split with the separator gives back the input, so nothing is lost or reordered |
| JsStrings.SplitAppend | action.js:44 | splitting `a + sep + b` gives the pieces of `a` followed by those of `b` |
| JsStrings.SplitJoin | action.js:44 | splitting pieces joined by the separator gives the pieces back when none holds it |
| JsStrings.DropEmpty | action.js:45-47 | the `length !== 0` filter keeps only non-empty elements of the input and never lengthens it |
| JsStrings.TrimAll | action.js:46 | `map(trim)` keeps the length and trims element by element |
| JsStrings.DropEmptyAppend | action.js:45-47 | the filter distributes over concatenation, so order is kept |
| JsStrings.TrimAllAppend | action.js:46 | `map(trim)` distributes over concatenation |
| JsStrings.DropEmptyNone | action.js:47 | the filter is the identity on a list without empty strings |
| JsStrings.TrimAllFixed | action.js:46 | `map(trim)` is the identity on trimmed strings |
| JsStrings.TrimAllNoWhitespace | action.js:66-67 | `map(trim)` is the identity on strings without white space |
| JsStrings.DropEmptyBeforeTrim | action.js:45-47 | filtering empties before `map(trim)` changes nothing once they are filtered after it |
| JsStrings.SplitOnWhitespaceRuns | action.js:66 | `split(/\s+/)` gives at least one piece and no piece holds white space |
| JsStrings.Tokens | action.js:65-68 | every token of the path expression is non-empty and free of white space |
| JsStrings.TokensOfPieces | action.js:66-67 | the `map(trim)` step in the token pipeline changes nothing |
| JsStrings.TokensAt | action.js:66-68 | cutting at the first white-space run gives the first word, then the tokens of the rest |
| JsStrings.TokensWhole | action.js:66-68 | a string without white space is one token, or none when it is empty |
| JsStrings.TokensSeparated | action.js:66-68 | the tokens of `a + w + b`, where `w` is non-empty white space, are those of `a` followed by those of `b` |
| JsStrings.SingleToken | action.js:66-68 | a non-empty string without white space is exactly one token |
| JsStrings.TokensTrailing | action.js:66-68 | trailing white space does not change the tokens |
| JsStrings.TokensLeading | action.js:66-68 | leading white space does not change the tokens |
| JsStrings.TokensAround | action.js:66-68 | white space on both sides does not change the tokens |
| JsStrings.TokensOfTrim | action.js:56-68 | trimming the path expression before splitting does not change its tokens |
| JsStrings.TokensOfJoin | action.js:65-68 | tokens joined by single spaces split back into the same tokens |
| JsStrings.ReplaceFirst | action.js:95 | `replace('/', '__')` leaves a string without `/` alone; otherwise one `/` becomes `__`, so the length grows by one |
| JsStrings.ReplaceFirstIs | action.js:95 | the replaced occurrence is the first one; the text on both sides, later `/` included, is kept |
| JsStrings.FirstNonWordOrHyphen | action.js:95 | the position of the first character outside `[\w-]`, or the end |
| JsStrings.RemoveFirstNonWordOrHyphen | action.js:95 | `replace(/[^\w-]/, '')` leaves a string made of `[\w-]` alone and otherwise removes exactly one character |
| JsStrings.RemoveFirstNonWordOrHyphenIs | action.js:95 | the removed character is the first one outside `[\w-]`; all others stay in order, later disallowed ones included |
| JsStrings.UpperChar | action.js:95 | the result is never a lower-case ASCII letter; membership in `[\w-]` is kept; other characters are unchanged |
| JsStrings.UpperAscii | action.js:95 | `toUpperCase` keeps the length and upper-cases each character on its own place; no lower-case ASCII letter is left, and "all of `[\w-]`" is kept |
| JsStrings.UpperAsciiIdempotent | action.js:95 | upper-casing twice is upper-casing once |
| SecretsInput.Message | action.js:60-72 | the thrown text ends with the rejected entry in double quotes |
| SecretsInput.Entries | action.js:43-47 | every entry is non-empty, trimmed and free of `;` |
| SecretsInput.EntriesFirstFilterRedundant | action.js:45-47 | the truthiness filter before `trim` changes no result |
| SecretsInput.EntriesAppend | action.js:43-47 | the entries of `a;b` are those of `a` followed by those of `b`, so order is kept |
| SecretsInput.EntriesOfBlank | action.js:43-47 | an empty or white-space-only piece gives no entry (it is dropped, not an error) |
| SecretsInput.EntriesOfJoin | action.js:43-47 | trimmed, non-empty entries without `;` joined by `;` come back as exactly those entries |
| SecretsInput.NormalizeOutputKey | action.js:94-96 | the derived name has no lower-case ASCII letter; its length is `\|k\|` + 1 if `k` holds `/`, − 1 if a disallowed character remains after that; a key made of `[A-Za-z0-9_-]` is just upper-cased |
| SecretsInput.NormalizeOneShot | action.js:95 | `a/b/c` normalises to `A__BC`: one `/` replaced, then one disallowed character removed |
| SecretsInput.ReplaceFirstSlash | action.js:95 | the first step on `a/b/c` gives `a__b/c` |
| SecretsInput.RemoveSecondSlash | action.js:95 | the second step on `a__b/c` gives `a__bc` |
| SecretsInput.UpperOneShot | action.js:95 | the third step on `a__bc` gives `A__BC` |
| SecretsInput.NormalizeEmptyIff | action.js:95 | the derived name is empty exactly when the key is empty or is one character that is neither `/` nor in `[\w-]` |
| SecretsInput.ParseEntrySpec | action.js:51-86 | a parsed entry has non-empty, white-space-free path and key; with `\|`, the name is non-empty and holds no `\|`; without `\|`, the name is the normalised key; an error carries the entry; a missing name is reported only for an entry with `\|` |
| SecretsInput.NamedEntrySpec | action.js:55-85 | for an entry with `\|`: a well-formed reference with a non-empty name free of `\|`, or an error carrying the entry |
| SecretsInput.UnnamedEntrySpec | action.js:65-85 | for an entry without `\|`: a well-formed reference named by the normalised key, or the path-and-key error |
| SecretsInput.SplitRename | action.js:52-58 | a name is cut off exactly when the entry holds `\|`, and then holds no `\|`; path and name come out trimmed; without `\|` the path is the whole entry |
| SecretsInput.ParsePathAndKey | action.js:65-79 | success exactly with two tokens, which become path and key of a well-formed reference; otherwise the path-and-key error carrying the entry; a non-empty given name is kept, and otherwise the name is the normalised key |
| SecretsInput.ExplicitName | action.js:52-85 | `ParseEntry` on an entry whose last `\|` is at `i`: an empty name fails with the missing-name error before the tokens are examined; otherwise the entry fails with the path-and-key error exactly when the text before `i` has other than two tokens, and on success they are path and key and the name is used verbatim |
| SecretsInput.DerivedName | action.js:52-85 | `ParseEntry` on an entry without `\|`: it parses exactly when it has two tokens, which become path and key, and the name is the normalised key |
| SecretsInput.PathAndKey | action.js:65-68 | `<path> <key>` has exactly the tokens `[path, key]` and is already trimmed |
| SecretsInput.EntryWithName | action.js:55-85 | writing a reference as `<path> <key>\|<name>` and parsing it gives the reference back, even when path or key hold `\|` |
| SecretsInput.EntryWithoutName | action.js:65-85 | writing `<path> <key>` and parsing it gives that path and key and the normalised key as name |
| SecretsInput.EmptyDerivedName | action.js:76-79 | `<path> .` parses, with the empty derived name |
| SecretsInput.Collect | action.js:50-87 | the gathered results succeed exactly when every result does, and then hold every value in order; otherwise they fail with the error of the first failure |
| SecretsInput.CollectFailsAt | action.js:50-87 | the first failure's error is the one returned |
| SecretsInput.CollectSucceeds | action.js:50-87 | when every result is a success, the values come out in order |
| SecretsInput.CollectSingle | action.js:50-87 | gathering one result is that result |
| SecretsInput.CollectAppend | action.js:50-87 | gathering two lists gives the first error, or both value lists in order |
| SecretsInput.ParseEach | action.js:51 | one result per entry |
| SecretsInput.ParseEachAt | action.js:51-86 | result `n` is the parse of entry `n` |
| SecretsInput.ParseEachAppend | action.js:51-86 | per-entry parsing distributes over concatenation |
| SecretsInput.ParseAllSpec | action.js:50-87 | `ParseAll`: the parse succeeds exactly when every entry does, and then holds one reference per entry, in order; otherwise it returns the first failing entry's error, and no partial list |
| SecretsInput.ParseAllWellFormed | action.js:65-87 | every reference of a successful parse is well formed |
| SecretsInput.ParseAllAppend | action.js:50-87 | parsing two entry lists gives the first error, or both reference lists in order |
| SecretsInput.ParseSecret | action.js:52-85 | the loop body, with `path` and `outputName` reassigned as in the source, returns the parse of the entry |
| SecretsInput.ParseAllSnoc | action.js:51-86 | one more entry either keeps an earlier error, adds its own, or appends its reference |
| SecretsInput.ParseAllSingle | action.js:51-86 | one entry parses to its own reference or its own error |
| SecretsInput.ParseAllPrefixFails | action.js:60-87 | once a prefix of the entries fails, the whole parse fails with the same error |
| SecretsInput.ParseSecretsInput | action.js:42-88 | the loop returns exactly `ParseAll(Entries(input))`: all references in order, or the first error and no partial list |
| SecretsInput.ParseInputAppend | action.js:42-88 | the parse of `a;b` is the first error, or the references of `a` followed by those of `b` |
| Scenarios.SingleEntryInput | action.js:42-88 | an input that is one trimmed entry without `;` parses to that entry's reference, or fails with its error |
| Scenarios.DerivedNameInput | action.js:42-88 | the input `<path> <key>`, with a key of word characters and hyphens, gives one reference named by the upper-cased key |
| Scenarios.SpacedName | action.js:55-85 | white space before and after the `\|` is trimmed away from the tokens and from the name |
| Scenarios.ExplicitNameInput | action.js:42-88 | the input `<path> <key>\|<name>` gives one reference carrying that name as it is |
| Scenarios.WrongTokenCount | action.js:65-72 | an entry without `\|` made of any number of words other than two fails with the path-and-key error |
| Scenarios.ThreeTokensEntry | action.js:65-72 | `path a b c` fails with the path-and-key error |
| Scenarios.TwoEntriesInput | action.js:42-88 | `<p1> <k1>;<p2> <k2>\|<name>` gives two references in input order, the first named by its upper-cased key, the second by its explicit name |
| Scenarios.TwoInputs | action.js:42-88 | two inputs of one reference each, joined by `;`, give both references in order |
| Scenarios.KeyName | action.js:94-96 | the key `key` is normalised to `KEY` |
| Scenarios.DerivedNameEntry | action.js:65-85 | `path key` gives path `path`, key `key` and name `KEY` |
| Scenarios.ExplicitNameEntry | action.js:55-85 | `path key \| MY_NAME` gives the name `MY_NAME` |
| Scenarios.EmptyNameInput | action.js:42-88 | `path key \|` makes the whole input fail with the missing-name error |
| Scenarios.PipesInTokens | action.js:55-85 | in `a\|b c\|d\|N` only the last `\|` starts the name: path `a\|b`, key `c\|d`, name `N` |

## Left out

- `exportSecrets` (action.js:5-36) is not modelled. It is I/O: it reads
  inputs through `core.getInput`, makes an HTTP request with `got`, parses
  the response with `JSON.parse`, issues `add-mask`, calls
  `core.exportVariable` and logs a debug line. These are calls into
  libraries outside this code.
- Two quirks of `exportSecrets` are not modelled, for the same reason:
  - TLS verification is always off (`rejectUnauthorized: false`), and the
    `skip_tls_verification` input is read but unused.
  - The namespace header is sent whenever that input is `!= null`.
- A thrown `Error` object is not modelled. The model uses the `Failure`
  value, whose `ParseError` records the kind and the entry; `Message`
  gives the text.
- JsStrings.UpperAscii: upper-cases ASCII letters only. JavaScript's
  `toUpperCase` also maps non-ASCII letters, and some of them change
  length (`ß` becomes `SS`). Outside ASCII, the derived name can
  therefore differ from the source's.
- Strings are sequences of Unicode scalar values, not of UTF-16 code
  units. The separators and the white space are all inside the Basic
  Multilingual Plane, so `Entries`, `Trim` and `Tokens` are unaffected.
- SecretsInput.NormalizeOutputKey: differs from the source on keys with
  characters outside the Basic Multilingual Plane.
  `replace(/[^\w-]/, '')` (action.js:95) has no `u`
  flag, so on a key whose first disallowed character lies outside that
  plane it removes only the high surrogate and keeps the low one. The
  model removes the whole character. For the key `😀`, the source
  derives the lone surrogate `\uDE00` and the model derives `""`.
  Its contract, `SecretsInput.NormalizeEmptyIff` and
  `SecretsInput.EmptyDerivedName` therefore hold for the source only
  on keys whose characters are all inside that plane.
