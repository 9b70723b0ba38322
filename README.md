# typed-dotenv: a Dafny model of the annotation pipeline

typed-dotenv reads a `.env` file with dotenv and a `.env.template` file, and gives
every variable the template annotates a typed value. This project models the
library's core in Dafny and proves properties of it. The core has five parts:

- **The converter** (`src/lib/convert.ts`). It turns a raw string into a string,
  number, boolean, array or JSON value. It tries an ordered list of type names
  one after another. A `ConvertError` moves it to the next name. Any other error
  ends the loop.
- **The template parser** (`src/lib/template.ts`):
  - it splits the template into lines;
  - a `##` line opens a comment block;
  - the block's `@required {types} name` and `@optional {types} [name=default]`
    directives build an annotation;
  - the next `KEY=VAL` line binds that annotation to `KEY`.
  Each regular expression of the parser is a classifier, with lemmas that state
  which strings the expression matches and which captures its greedy quantifiers
  pick.
- **`compose`** (`src/lib/compose.ts`):
  - first it checks the dotenv variables against the template: unknown
    variables, which are an error in "error" mode, and missing required ones;
  - then it fills in every template variable with its converted value or its
    default;
  - optionally it renames the variables into nested objects.
- **`frame`** (`src/lib/frame.ts`). It does the same filling in and renaming, but
  it finds a missing variable inside the fill loop, and it returns the error
  instead of throwing it.
- **The three lodash functions these call**: `camelCase`, `snakeCase` (both built
  on `words`) and `set`.

Every loop of the source but one is a `method` with a `while` loop, proved to
compute a recursive specification function. The exception is getTypes' `for…of`
loop (`src/lib/template.ts:46-50`). It only checks that every type name is
allowed, so `Template.GetTypes` is a function with that check as a quantifier.


| method | specification function |
|---|---|
| `Convert.Convert`, `Convert.CoerceArray` | `Converted`, `ArrayOf` |
| `Template.ParseCommentBlock`, `Template.Parse` | `Block`, `ParseFrom` |
| `Compose.FillIn`, `Compose.Rename`, `Compose.Compose` | `FillFrom`, `RenameTo`, `Composed` |
| `Frame.Frame` | `Framed` |

The lemmas state the source's promises about those functions.

The model passes functions as parameters in four places:

- **Built-ins the model does not define.** JavaScript's `Number` and `JSON.parse`
  come in as the two fields of a `Host` value.
- **The template parser** takes the annotation update (`Setter`) as a parameter.
  `Template.Parsed` instantiates it with `setAnnotation`.
- **The fill loop** takes the per-variable value (`Filler`) as a parameter. The
  model of `compose` and the model of `frame` each give it their own.
- **The rename loop** takes the path of a variable (`PathOf`) as a parameter. The
  model of `compose` and the model of `frame` each give it their own.

Files:

| file | contents |
|---|---|
| `wrappers.dfy` | `Option` and `Result` |
| `seqs.dfy` | `filter` and key uniqueness |
| `dicts.dfy` | insertion-ordered objects |
| `values.dfy` | JavaScript values and the two kinds of error |
| `text.dfy` | JavaScript whitespace, `trim`, `split`, `join`, ASCII lower-casing |
| `convert.dfy` | the converter |
| `template.dfy` | the parser |
| `lodash.dfy` | `camelCase`, `snakeCase` and `set` |
| `compose.dfy` | `compose` |
| `frame.dfy` | `frame` |

## Model

| member | source | states |
|---|---|---|
| Convert.CoerceNumber | src/lib/convert.ts:20-26 | `strTo.number` fails exactly when `Number` gives NaN, with "Failed to convert the data into number"; otherwise it returns that number |
| Convert.CoerceBoolean | src/lib/convert.ts:28-37 | the lower-cased text `true` or `yes` gives true; `false` or `no` gives false; anything else is the boolean ConvertError |
| Convert.BooleanIgnoresCase | src/lib/convert.ts:29 | lower-casing the input first changes nothing |
| Text.Lower | src/lib/convert.ts:29 | `toLocaleLowerCase` keeps the length and lower-cases each character on its own |
| Text.LowerIdempotent | src/lib/convert.ts:29 | lower-casing twice is lower-casing once |
| Convert.CoerceJson | src/lib/convert.ts:39-49 | JSON is accepted exactly when `JSON.parse` succeeds and the text starts with `{` or `[`; both failures give the same ConvertError |
| Convert.ScalarIsNotJson | src/lib/convert.ts:42-45 | `"999"` is refused as JSON, whatever `JSON.parse` gives |
| Convert.CoerceArray | src/lib/convert.ts:4-16 | the loop that pushes one converted piece after another computes `ArrayOf` |
| Text.SplitTrimmed | src/lib/convert.ts:1-5 | splitting at `\s*,\s*` gives one piece per comma-separated segment; SplitTrimmedShape states that no piece holds the comma and no inner end of a piece holds whitespace |
| Text.SplitTrimmedShape | src/lib/convert.ts:1-5 | no piece holds the separator, and the whitespace next to every separator is dropped |
| Convert.ElementsFromAllOrNothing | src/lib/convert.ts:7-15 | the piece loop succeeds exactly when every piece converts; it then holds one element per piece, in order |
| Convert.ArrayOfAllOrNothing | src/lib/convert.ts:4-16 | `strTo.array` splits at commas with surrounding whitespace; it succeeds iff every piece converts, gives the elements in piece order, and otherwise throws "Failed to convert the data into T[]" |
| Convert.StringArrayKeepsPieces | src/lib/convert.ts:4-18 | `string[]` never fails and keeps every piece as a string |
| Convert.StringIsIdentity | src/lib/convert.ts:18 | `string` returns its input unchanged |
| Convert.Element | src/lib/convert.ts:10 | `strTo[type](item)` for one piece: the scalar coercer of a scalar name; `array` fails with the ConvertError for `undefined[]`, and any other name with "strTo[type] is not a function" |
| Convert.ArrayOf | src/lib/convert.ts:4-16 | `strTo.array`: the pieces of the comma split converted one by one, the first failure turned into "Failed to convert the data into T[]"; ArrayOfAllOrNothing states it |
| Convert.Attempt | src/lib/convert.ts:64-72 | one turn of the fallback loop: the array coercer for `X[]` and `array`, a scalar coercer for a known name, and "strTo[type] is not a function" otherwise |
| Convert.Converted | src/lib/convert.ts:59-81 | `convert`: the first attempt that does not throw a ConvertError, or the all-failed ConvertError; ConvertedAt, ConvertedAllFail and ConvertedOkIsFirstSuccess state it |
| Convert.Convert | src/lib/convert.ts:59-81 | the fallback loop computes `Converted`: try each name in order, go on after a ConvertError, stop at anything else |
| Convert.Outcomes | src/lib/convert.ts:63-70 | one outcome per type name, in list order: the attempt with that name |
| Convert.KnownIsRecoverable | src/lib/convert.ts:63-78 | a name that has a coercer (`X[]`, `array`, string, number, boolean, json) never throws anything but a ConvertError |
| Convert.ConvertedAt | src/lib/convert.ts:63-79 | the result is that of the first attempt that does not throw a ConvertError |
| Convert.ConvertedAllFail | src/lib/convert.ts:80 | when every attempt throws a ConvertError (an empty list included), the result is "Failed to convert the data into any of the types [...]" |
| Convert.ConvertedOkIsFirstSuccess | src/lib/convert.ts:63-78 | a success is what some attempt returned, and every earlier attempt threw a ConvertError |
| Convert.KnownNamesOnlyConvertErrors | src/lib/convert.ts:73-80 | with known names only, convert throws nothing but ConvertErrors |
| Convert.StringNeverFails | src/lib/convert.ts:63-80 | a list holding `string` or `string[]` after known names only never fails |
| Convert.TrueIsBoolean | src/lib/convert.ts:59-81 | `"true"` under `[json, number, boolean, string]` is the boolean true |
| Convert.DateIsUnknown | src/lib/convert.ts:70-77 | `Date` has no coercer, so its TypeError escapes the loop; `Date[]` only throws a ConvertError, so the next type is tried |
| Template.LinesJoin | src/lib/template.ts:118 | the written split loses nothing: its lines joined with `\n` are the text with every `\r` made a `\n` |
| Template.LinesHaveNoNewline | src/lib/template.ts:118 | no line of the written split holds a `\n` or a `\r` |
| Template.LinesOfOneLine | src/lib/template.ts:118 | a text without newline characters is one line |
| Template.Lines | src/lib/template.ts:118 | the written split always gives at least one line, the empty text being one empty line |
| Template.Parsed | src/lib/template.ts:114-150 | `parse(src)`: the lines of the written split read from the first with nothing pending and nothing recorded, setAnnotation as the update; ParsedSound, ParseFromError and ParseFromUnclassified state what it returns |
| Template.CrlfLosesAnnotation | src/lib/template.ts:33 | as written, a CRLF template leaves an empty line after each `\r`; the block closes at it, and the key line receives nothing |
| Template.SplitLines | src/lib/template.ts:33 | the corrected split, with `\r\n` tried first, always gives at least one line |
| Template.ParsedCrlf | src/lib/template.ts:114-150 | parse as evidently intended, over the corrected split: a template is read like the same template with every line break made a `\n` |
| Template.SplitLinesAsLf | src/lib/template.ts:33 | the corrected split reads a CRLF text as the same text with LF breaks, and no line holds a break character |
| Template.SplitLinesWithoutCrlf | src/lib/template.ts:33 | on a text without `\r\n` the corrected split and the written one agree |
| Template.CrlfKeepsAnnotation | src/lib/template.ts:33 | under the corrected split, which ParsedCrlf uses, what the comment line of a CRLF template sets reaches its key line |
| Template.EmptyLineClosesBlock | src/lib/template.ts:125-143 | a `##` line, an empty line, a comment line, an empty line and a key line: the empty line closes the block before the comment line, so parse records nothing |
| Template.CommentReachesKey | src/lib/template.ts:125-136 | a `##` line, a comment line whose update sets an annotation, and a key line: the key line receives that annotation |
| Template.HashLineIsNoKey | src/lib/template.ts:35-39 | a line that starts with `#` never matches `KEY=VAL` |
| Template.CommentContentMatches | src/lib/template.ts:35 | the comment classifier finds a capture exactly when `^#\s*(.*)$` matches, and the capture is the one the greedy `\s*` leaves |
| Template.ValueMatchesTrimmed | src/lib/template.ts:39 | `\s*(.*)?\s*$` matches a value part exactly when, once trimmed, it holds no line break |
| Template.KeyOfMatches | src/lib/template.ts:39 | KeyOf finds a key exactly when `^\s*([\w.-]+)\s*=\s*(.*)?\s*$` matches, and every match captures that key |
| Template.GetTypes | src/lib/template.ts:43-53 | the types, split at `\|` with surrounding whitespace, in written order and at least one, when every one is allowed; otherwise "Unknown allowed type(s)" |
| Text.TrimStart | src/lib/template.ts:44 | `trimStart` removes exactly the leading whitespace: what is left is a suffix that does not start with whitespace |
| Text.TrimEnd | src/lib/template.ts:44 | `trimEnd` removes exactly the trailing whitespace: what is left is a prefix that does not end with whitespace |
| Template.RequiredComplete | src/lib/template.ts:36 | every way `@required\s*\{(.+)\}\s*([\w.]+)?` matches gives the directive the classifier reads (the last `}` ends the types) |
| Template.RequiredSound | src/lib/template.ts:36 | what the classifier reads as a required directive is a match of that expression, with those captures |
| Template.OptionalMatched | src/lib/template.ts:37 | every match of the optional expression is read as an optional directive, and the types it reads are at least as long as the match's `(.+)` capture |
| Template.OptionalSound | src/lib/template.ts:37 | what the classifier reads as an optional directive is a match of the optional expression, with its name and raw default captures |
| Template.ParseDirectiveOptional | src/lib/template.ts:37 | an optional directive is read from the text after `@optional` up to its last `}` |
| Template.LastIndex | src/lib/template.ts:36-37 | the position of the last occurrence of a character, where the greedy `(.+)\}` ends; none when the character is absent |
| Template.LastWhere | src/lib/template.ts:36-37 | the last position below a limit that meets a condition, and none when no position does |
| Template.SetAnnotation | src/lib/template.ts:55-92 | `setAnnotation`: the directive the comment text holds (ParseDirective) applied to the annotation (Apply, whose contract states the outcomes) |
| Template.ParseDirective | src/lib/template.ts:58-74 | the required expression is tried first, then the optional one; None when neither matches (RequiredComplete, RequiredSound, OptionalMatched and OptionalSound state the matches) |
| Template.RequiredIn | src/lib/template.ts:36 | the text after `@required {` read up to its last `}`, the greedy end of `(.+)`; RequiredComplete and RequiredSound state it |
| Template.OptionalIn | src/lib/template.ts:37 | the text after `@optional {` read up to the last `}` after which the rest of the expression matches; OptionalMatched and OptionalSound state it |
| Template.CommentContent | src/lib/template.ts:35 | the capture of `^#\s*(.*)$`; CommentContentMatches states it |
| Template.KeyOf | src/lib/template.ts:39 | the key capture of `^\s*([\w.-]+)\s*=\s*(.*)?\s*$`; KeyOfMatches states it |
| Template.Apply | src/lib/template.ts:55-92 | no directive keeps the annotation; `@required` after `@optional`, or the reverse, gives the conflict message; otherwise a type name that is not allowed gives "Unknown allowed type(s)", and an `@optional` default that does not convert gives the converter's message; it succeeds exactly when none of these happens, and a success takes the directive's types and name |
| Template.ApplySound | src/lib/template.ts:55-92 | a directive read into an empty or sound annotation leaves a sound one: `required` set, allowed types, no default when required |
| Template.ApplyDefault | src/lib/template.ts:66-87 | `@required` sets required and keeps any default; `@optional` sets required to false, and sets the converted default exactly when it has `=` |
| Template.ApplyLastWins | src/lib/template.ts:55-92 | of two directives of one kind, the second sets the types and the name; it succeeds whenever its types are allowed and, if optional, it has no default |
| Template.SetterOfIs | src/lib/template.ts:105 | the update the parser uses is setAnnotation |
| Template.ParseCommentBlock | src/lib/template.ts:94-112 | the block loop computes `Block`: comment lines are read into the annotation until the first line that is no comment; it fails with `Failed to parse template: Ln N: ` and the message |
| Template.BlockFrom | src/lib/template.ts:97-110 | the block loop from a line on never ends before that line nor past the last line |
| Template.Block | src/lib/template.ts:94-112 | a block read from a `##` line ends after it, and within the text |
| Template.BlockFromSound | src/lib/template.ts:97-110 | setAnnotation applied line after line keeps an annotation sound |
| Template.BlockFromWithoutDirectives | src/lib/template.ts:97-110 | comment lines without directives leave the annotation as it is |
| Text.NatToString | src/lib/template.ts:107 | the line number in an error message is written in decimal digits, at least one |
| Text.NatToStringValue | src/lib/template.ts:107 | the digits of the line number read back as that number, with no leading `0` |
| Template.BlockFromExtent | src/lib/template.ts:97-110 | a block runs over consecutive comment lines and stops at the first other line, or at the end |
| Template.BlockFromErrorLine | src/lib/template.ts:104-108 | a failed block names the 1-based number of one of its comment lines, followed by the update's message |
| Template.BlockSound | src/lib/template.ts:94-112 | every annotation a block yields is sound |
| Template.BlockWithoutDirectives | src/lib/template.ts:111 | a block whose comment lines hold no directive yields no annotation (`null`) |
| Template.Parse | src/lib/template.ts:114-150 | the parse loop over the lines of the written split (`Lines`) computes `ParseFrom` from the first line, so `Parse(SetterOf(host), src)` is `Parsed(host, src)` |
| Template.ParseFrom | src/lib/template.ts:122-147 | the parse loop from a line on: a `##` line reads a block, a key line binds what is pending, comments and blank lines are passed over, any other line is "Neither a comment or a key-value pair"; ParseFromStep, ParseFromError and ParseFromUnclassified state it |
| Template.ParseFromStep | src/lib/template.ts:122-147 | one step of parse: a `##` line reads the block and replaces what is pending; a key line binds the pending annotation, if any, and clears it; other lines leave both alone |
| Template.ParseFromError | src/lib/template.ts:104-108 | every parse error is the line-numbered error of one line: a failing comment line, or "Neither a comment or a key-value pair" |
| Template.ParseFromUnclassified | src/lib/template.ts:144-146 | after lines that are key lines, comments or blank, the first line of no kind makes parse fail with "Failed to parse template: Ln N: Neither a comment or a key-value pair", N being its 1-based number, whatever was pending or recorded |
| Template.BlockStartError | src/lib/template.ts:104-108 | when the block opened at a `##` line fails, parse fails with that block's error, which names one of the comment lines after the `##` line |
| Template.ParsedSound | src/lib/template.ts:114-150 | every annotation parse returns is sound |
| Template.ParseFromSound | src/lib/template.ts:122-147 | the parse loop, started from sound annotations, records only sound ones |
| Template.ParseFromKeepsKeys | src/lib/template.ts:133-135 | parse only adds keys; the keys found so far keep their places at the front |
| Template.ParseFromKeysFromLines | src/lib/template.ts:129-139 | every key parse adds is the key of a `KEY=VAL` line it read |
| Template.ParseFromWithoutBlocks | src/lib/template.ts:129-139 | with no `##` line, key lines alone record nothing |
| Template.ParseFromQuiet | src/lib/template.ts:129-143 | with nothing pending, no `##` line and only lines of known kinds, parse records nothing and fails nowhere |
| Template.BlockReplacesPending | src/lib/template.ts:125-128 | a `##` line starts over: what was pending before it does not matter |
| Template.PendingBindsNextKey | src/lib/template.ts:129-143 | a pending annotation waits over comments and blank lines and goes to the next key line, and only to it |
| Lodash.CamelCase | src/lib/compose.ts:9 | `_.camelCase`: the words lower-cased, every word after the first capitalised, joined with nothing; CamelCaseChars and CamelCaseKeepsLetters state it |
| Lodash.SnakeCase | src/lib/compose.ts:10 | `_.snakeCase`: the words lower-cased and joined with `_`; SnakeCaseChars and SnakeCaseIdempotent state it |
| Lodash.SetIn | src/lib/compose.ts:81 | `_.set` on a path of property names; GetAfterSet, SetLeavesOtherPaths, SetLastWins and SetTopLevel state it |
| Lodash.Words | src/lib/compose.ts:9-10 | every word found is a run of digits, a run of lower-case letters, a capital followed by lower-case letters, or a run of capitals |
| Lodash.Unapostrophe | src/lib/compose.ts:9-10 | the text lodash splits into words holds no apostrophe `'` or `’` |
| Lodash.Capitalize | src/lib/compose.ts:9 | `capitalize` keeps the length of a word |
| Lodash.CapitalizeAlnum | src/lib/compose.ts:9 | `capitalize` turns a word of letters and digits into one of letters and digits |
| Lodash.WordsKeepAlnum | src/lib/compose.ts:9-10 | the words laid end to end are exactly the letters and digits of the input |
| Lodash.WordsOfJoin | src/lib/compose.ts:9-10 | words laid out with separators of no letters or digits are found again |
| Lodash.CamelCaseKeepsLetters | src/lib/compose.ts:9 | camelCase changes only letter case: lower-cased, it is the lower-cased letters and digits of its input, apostrophes removed |
| Lodash.CamelCaseChars | src/lib/compose.ts:9 | camelCase writes only letters and digits |
| Lodash.SnakeCaseChars | src/lib/compose.ts:10 | snakeCase writes only lower-case letters, digits and `_` |
| Lodash.SnakeCaseIdempotent | src/lib/compose.ts:10 | snakeCase of a snake-cased string changes nothing |
| Lodash.GetAfterSet | src/lib/compose.ts:81 | after `set` on a path with no reserved name, reading that path finds the value |
| Lodash.SetLeavesOtherPaths | src/lib/compose.ts:81 | after `set`, a path that leaves the written one finds what it found before |
| Lodash.SetLastWins | src/lib/compose.ts:81 | setting one path twice is setting the second value |
| Lodash.SetTopLevel | src/lib/compose.ts:81 | set adds the path's first name last among the keys unless it is there already; every other key keeps its value |
| Lodash.NamePathParts | src/lib/compose.ts:76-81 | a template name read as a path: its parts hold no dot, and joined with dots they give the name back |
| Lodash.NamePath | src/lib/compose.ts:76-81 | a name read as a path has at least one part |
| Text.SplitOn | src/lib/compose.ts:78 | `split` with a non-empty separator gives at least one piece, cut left to right at each occurrence; SplitAtFirst, SplitJoin and SplitPiecesLackSeparator pin the pieces down |
| Text.SplitAtFirst | src/lib/compose.ts:78 | `split` cuts at the first occurrence of the separator, so `"a___b"` at `"__"` gives `"a"` then `"_b"`: no occurrence starts inside the first piece, a single piece is the whole text, and otherwise the separator follows the first piece and the other pieces are the split of the text after it |
| Text.SplitNoEarlierCut | src/lib/frame.ts:47 | no occurrence of the separator starts inside the first piece |
| Text.SplitIntoOne | src/lib/frame.ts:47 | a split into one piece is the whole text |
| Text.SplitRestAfterFirst | src/lib/frame.ts:47 | after the first piece come the separator and the split of the rest of the text |
| Text.SplitJoin | src/lib/compose.ts:78 | joining the pieces of a split with the separator, `__` included, gives the text back |
| Text.SplitPiecesLackSeparator | src/lib/compose.ts:78 | no piece of a split contains the separator |
| Text.SplitFirstPrefix | src/lib/compose.ts:78 | the first piece of a split is a prefix of the text |
| Text.ContainsChar | src/lib/compose.ts:76-78 | a one-character separator occurs in a text exactly where its character does |
| Dicts.Put | src/lib/compose.ts:70 | an assignment sets the key's value and changes no other value; an existing key keeps its place, a new one goes last |
| Dicts.PutTwice | src/lib/compose.ts:70 | assigning one key twice is assigning the second value |
| Dicts.MapValues | src/lib/compose.ts:56 | the copy of dotenv's variables has the same keys in the same order, each value passed through the conversion |
| Compose.ToCase | src/lib/compose.ts:6-15 | `toCase`: camelCase, snake_case or the text itself; ToCaseResult states it |
| Compose.ToCaseResult | src/lib/compose.ts:6-15 | camelCase gives letters and digits; snake_case gives a fixed point of itself; any other style leaves the text unchanged |
| Compose.CheckVariables | src/lib/compose.ts:17-38 | `checkVariables`: in "error" mode the unknown variables fail first with "Unknown variables are not allowed: " and their names joined with commas; then the missing required ones, with "Some required variables are missing: "; CheckVariablesOk states when it passes |
| Compose.CheckVariablesOk | src/lib/compose.ts:17-38 | the check passes exactly when, in "error" mode, the template names every dotenv variable, and every required variable is present and not empty |
| Compose.FillValue | src/lib/compose.ts:59-70 | the value of one template variable after the check: its default or null when not required and absent or empty, otherwise converted to its types; FillValuePresent and FillValueAbsent state it |
| Compose.FillValuePresent | src/lib/compose.ts:62-68 | a present variable is converted to its types, or kept as its text when the template gives none |
| Compose.FillValueAbsent | src/lib/compose.ts:62-63 | a variable that is not required and is absent or empty takes its default, or null, and is not converted |
| Compose.RawStart | src/lib/compose.ts:56 | rawEnv starts empty in "remove" mode, and otherwise as a copy of dotenv's variables in dotenv's order |
| Compose.FillOne | src/lib/compose.ts:59-70 | the loop body computes FillValue for a variable |
| Compose.FillIn | src/lib/compose.ts:58-71 | the fill loop computes `FillFrom` over the template's keys |
| Compose.FillFromOutcome | src/lib/compose.ts:58-71 | the fill loop succeeds exactly when every remaining variable fills in; otherwise it fails with the error of the first that does not |
| Compose.FillFromKeys | src/lib/compose.ts:58-71 | the fill loop keeps the keys it starts with and adds the template's new keys after them, in template order |
| Compose.FillFromKeeps | src/lib/compose.ts:58-71 | a variable the loop does not come to keeps its value |
| Compose.FillFromFilled | src/lib/compose.ts:70 | after the loop, each template variable holds its filled-in value |
| Compose.FillerOfFillable | src/lib/compose.ts:54-71 | once the check has passed, every template variable can be filled in |
| Compose.Rename | src/lib/compose.ts:73-82 | the rename loop computes `RenameTo`: every variable, in rawEnv's order, set at its path in a new object |
| Compose.KeyPath | src/lib/compose.ts:76-80 | the path of a variable: the template's name for it, read as a dotted path, or else its own name split at the nesting delimiter, empty parts dropped, each part put in the case style |
| Compose.RenameFinds | src/lib/compose.ts:75-82 | a renamed variable is found at its path, when every later path leaves that path at some name |
| Compose.Compose | src/lib/compose.ts:40-88 | compose computes `Composed`: the check, then the fill loop, then the rename loop when renaming is on |
| Compose.Composed | src/lib/compose.ts:40-88 | `compose`: the check, then the fill loop from rawEnv's start, then, when renaming is on, the rename loop; ComposedOk, ComposedError, ComposedKeys and ComposedValues state it |
| Compose.FillsAll | src/lib/compose.ts:58-71 | after the check, every template variable fills in exactly when its FillValue succeeds |
| Compose.ComposedOk | src/lib/compose.ts:40-88 | compose succeeds exactly when the check passes and every template variable's value succeeds |
| Compose.ComposedError | src/lib/compose.ts:54-71 | a failure after the check is the conversion error of the first template variable, in template order, that does not fill in |
| Compose.ComposedWithoutRename | src/lib/compose.ts:83-85 | without renaming, env is rawEnv |
| Compose.ComposedKeys | src/lib/compose.ts:56-71 | in "remove" mode rawEnv's keys are the template's; otherwise they are dotenv's keys, then the template keys dotenv lacks, in template order |
| Compose.ComposedValues | src/lib/compose.ts:56-71 | in rawEnv every template variable holds its filled-in value; every other dotenv variable (unless removed) holds its text |
| Compose.FilledValues | src/lib/compose.ts:58-71 | after a successful fill loop every template variable holds the value computed for it from its annotation and its dotenv text |
| Compose.KeptValues | src/lib/compose.ts:56-71 | in "keep" mode, a successful fill loop leaves every dotenv variable outside the template holding its text |
| Frame.FrameFillerFillable | src/lib/frame.ts:23-40 | every template variable can be asked for its frame value |
| Frame.FrameValue | src/lib/frame.ts:24-37 | the value of one template variable: "Required variable [KEY] is missing" when it is required and absent or empty, otherwise what compose gives it |
| Frame.FramePath | src/lib/frame.ts:45-49 | the path of a variable: the template's name for it, read as a dotted path, or else its own name split at the nesting delimiter with empty parts kept, each part passed through the case function |
| Frame.Framed | src/lib/frame.ts:6-60 | `frame`: the fill loop with the missing check inside it, then, when renaming is on, the rename loop; FramedOk, FramedError and FrameAgreesWithCompose state it |
| Frame.FrameOne | src/lib/frame.ts:24-37 | the value frame gives one template variable: "Required variable [KEY] is missing" for a required variable that is absent or empty, otherwise the value compose gives it |
| Frame.FrameFill | src/lib/frame.ts:23-40 | frame's fill loop computes the fill of the template variables in template order, stopping at the first error |
| Frame.FrameFillsAll | src/lib/frame.ts:23-40 | frame's fill loop fills every variable exactly when no required variable is missing and every template variable's value succeeds |
| Frame.Frame | src/lib/frame.ts:6-60 | frame's two loops compute `Framed`: the first missing or failing variable ends the fill loop with its error, returned rather than thrown |
| Frame.FramedOk | src/lib/frame.ts:23-40 | frame succeeds exactly when no required variable is missing and every template variable's value succeeds |
| Frame.FramedError | src/lib/frame.ts:27-37 | a failure is the error of the first template variable that does not fill in: "Required variable [KEY] is missing", or its conversion error |
| Frame.FillFromSameFill | src/lib/frame.ts:23-40 | fill loops whose per-variable values agree give the same result |
| Frame.FrameAgreesWithCompose | src/lib/frame.ts:20-40 | without renaming and with nothing missing, frame (removing unknown variables or not) returns what compose returns in "remove" or "keep" mode; with something missing, both fail |

## Left out

- I/O: `config` (reading files), `src/config.ts`, `src/index.ts`, `options.ts` and `types.ts` are not part of this model. The debug logging and the `console.log` at `src/lib/convert.ts:6` are left out too.
- Buffer input to `parse`. `src.toString()` decoding is not modelled; the template is a string.
- Floating point: numbers are mathematical reals, with no NaN, infinities or rounding. `Number(data)` and `JSON.parse(data)` are not defined here: they are the `number` and `json` fields of a `Host` parameter (None for NaN and for a parse error). Lemmas quantify over every host.
- Names that exist on every JavaScript object (`toString`, `constructor`, ...) are not treated as keys of `strTo`. A type name like `toString` is modelled as unknown, with a TypeError.
- Unicode case mapping: lower- and upper-casing are ASCII only.
  - In the boolean coercer this is exact: no non-ASCII character lower-cases to a letter of `true`, `yes`, `false` or `no`.
  - lodash `words` is modelled for ASCII text only. Every other character separates words. Its extra rules are not modelled: letters outside ASCII, `deburr`, ordinals such as `1st`, emoji and contractions.
- Lodash.CamelCase: no idempotence is stated. Only the characters camelCase writes and the letters it keeps are stated (CamelCaseChars, CamelCaseKeepsLetters); snakeCase's idempotence is proved (SnakeCaseIdempotent).
- Lodash.SetIn: only property-name paths are modelled.
  - Numeric segments, which make lodash create arrays, are not modelled.
  - Bracket syntax in a name is not modelled; template names never hold brackets.
  - A path that continues through an array value replaces the array with an object; lodash would set a property on the array.
  - Reserved names (`__proto__`, `constructor`, `prototype`) stop the write, as in lodash. Other names inherited from `Object.prototype` are ordinary keys here.
- Inherited names: the model's objects are maps with nothing inherited from `Object.prototype`. The source's lookups on plain objects also find inherited members such as `constructor` and `toString`, and its assignments treat `__proto__` specially. The lines below name where that makes the source differ.
- Compose.CheckVariables: `tmplParsed[k] == null` (`src/lib/compose.ts:24`) is false for an inherited name, so in "error" mode a dotenv variable `constructor` is never unknown there; here it is unknown when the template lacks it. `dotenvParsed[k]` in the missing check (`src/lib/compose.ts:32`) likewise finds an inherited member where the model finds nothing.
- Compose.FillerOf: the `Get(dotenv, key)` standing for `dotenvParsed[key]` (`src/lib/compose.ts:60`) finds nothing for a template variable named like an inherited member that dotenv lacks; the source would read the inherited member.
- Frame.FrameFiller: the same, for `dotenvParsed[key]` at `src/lib/frame.ts:25`.
- Compose.KeyPath: `tmplParsed[key]?.name` (`src/lib/compose.ts:76`) finds the `name` of an inherited function, so a kept variable `constructor` outside the template is set at the path `Object` in the source; here it is set at its own cased name.
- Frame.FramePath: the same, for `tmplParsed[key]?.name` at `src/lib/frame.ts:45`.
- Template.ParseFrom: `output[key] = annotation` (`src/lib/template.ts:134`) with the key `__proto__` replaces the output object's prototype and records no variable; here `__proto__` is an ordinary key.
- Key order: objects keep insertion order. JavaScript lists integer-like keys first, and that rule is not modelled.
- Aliasing: the model computes values.
  - The source mutates one annotation object in place and hands it to the output. Here it is a value.
  - Without renaming, `env` is the very object `rawEnv`; here the two are equal values.
- Compose.Composed: with renaming on, `set(env, keyPath, rawEnv[key])` (`src/lib/compose.ts:81`) stores each value by reference. A later path through an object value (a `json` value or a `json` default) writes into that same object, which is also the value in the returned `rawEnv` and, for a default, the template's `defaultValue`. With dotenv `{A: '{"x":1}', A__B: 'y'}`, a required `json` variable `A` and `rename: {}`, the source returns `rawEnv.A` as `{x: 1, b: 'y'}`; here `rawEnv.A` stays `{x: 1}`, as Compose.ComposedValues states, and only `env` holds the merged object. The change to the template's default, which later calls would see, is not modelled either.
- Frame.Framed: the same, for `_.set(env, keyPath, rawEnv[key])` at `src/lib/frame.ts:50`.
- Line terminators U+2028 and U+2029 split `.` matches in the regular expressions but not lines. The classifiers treat them as breaks inside a line (`NoBreaks`), as `.` does.
- Compose.RenameFinds: a later variable whose path is a prefix or an extension of an earlier one overwrites it. The readback lemma therefore assumes the later paths diverge, and the overwriting case is not described further.
- Frame options: the case-function option of `frame` is limited to lodash `camelCase` and `snakeCase`. `FrameOptions` is not defined in `types.ts` in this version of the source; its fields are read as `frame.ts:11-18` reads them.
- The tests in `src/lib/compose.test.ts` and `src/lib/convert.test.ts` expect things the code does not do: a `convertedEnv` output of compose, and a `Date` type. The model follows the code, where `Date` is an unknown type name (see Convert.DateIsUnknown).

## Findings

| source | as written | input that shows it | evidently intended | confidence | as-written member | corrected member |
|---|---|---|---|---|---|---|
| src/lib/template.ts:33 | `/\n\|\r\|\r\n/` tries `\r` before `\r\n`. A Windows line break is therefore split into two breaks, which leave an empty line between them. That empty line ends every comment block (`template.ts:100-102`) before its first directive, so no annotation of a CRLF template reaches its key. | `"##\r\n# @required {string}\r\nA=1"` parses to `{}` | `\r\n` read as one break (`/\r\n\|\n\|\r/`), so the same text gives `A` a required string annotation | high (not executed) | Template.CrlfLosesAnnotation | Template.ParsedCrlf |

`Template.Lines` is the split as written, and the parser as written (`Template.Parsed`, `Template.Parse`) reads templates with it; `Template.CrlfLosesAnnotation` shows the annotation lost. `Template.SplitLines` is the corrected split, and `Template.ParsedCrlf` is the parser with it. `Template.ParsedCrlf` reads a template as `Template.Parsed` reads the same template with every line break made a `\n`. `Template.SplitLinesAsLf` and `Template.CrlfKeepsAnnotation` prove the intended behaviour. `Template.SplitLinesWithoutCrlf` proves that both splits agree when a text has no `\r\n`.
