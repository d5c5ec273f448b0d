# gormaid schema extractor, modelled in Dafny

gormaid reads Go source text and pulls out the shape of one gorm model struct. Its core lives in
`main.go` and has four steps:

- `RemoveComments` strips block comments and line comments.
- `FindStructBlock` finds the `type <Name> struct { … }` block of a named struct by brace balance.
- `ParseStructBlock` turns that block into a `StructInfo`. A `StructInfo` holds:
  - the struct name;
  - one `FieldInfo` (name, type, ignored, external) per declared field;
  - the unique indices;
  - the primary keys;
  - the field-to-column map, built from each field's `gorm:"…"` tag.
- `squeeze` collapses runs of one character.

The source does its work in loops over bytes, lines and tag items. Each loop is a Dafny `method`
with the same branches, and each such method is proved equal to a specification function.

The properties the source relies on are lemmas about those functions:

- a line with no field adds nothing;
- a field line appends exactly one field and touches only its own keys;
- `foreignKey` stops the item loop and removes the column entry;
- the result keeps every key name within the declared fields;
- comment stripping leaves no opener behind and only trimmed, non-empty lines.

Modules, one per concern of `main.go`:

- `GoStrings`, `GoStringFacts`: the `strings` functions used (Index, LastIndex, Split, Join, TrimSpace,
  TrimLeft/TrimRight with a cutset, ToLower, ReplaceAll with an empty replacement).
- `Outcome`: `Result` and `Option`, and the two error kinds used where the source panics or hangs.
- `Squeeze`: `squeeze`.
- `Comments`: `RemoveComments`.
- `Patterns`: the five regular expressions the core uses: the struct header, the struct line, the
  backtick tag, the ignore tag and the gorm tag. Each is a predicate on the matched text. The four
  whose matched text the source uses also have a scanner, proved to find the leftmost match the
  way Go's `regexp` does. The ignore tag is only tested with `MatchString`, so it is a predicate on
  the whole tag and has no scanner.
- `StructBlock`: `FindStructBlock`.
- `Schema`: `FieldInfo`, `StructInfo` and the well-formedness invariant.
- `Directives`: the loop over the `;`-separated items of a gorm tag body.
- `StructParse`: `ParseStructBlock`, with `fieldNameProcess` as `FieldNameOf`.

Behaviour of the code that the model keeps, where a reader might expect something else:

- Properly paired block comments are removed exactly, leaving the text around them
  (`Comments.BlockStagePaired`). A reader might expect every `/* … */` span to go; the code instead
  searches for the first `*/` from the start of the text, so an opener followed by `/` is closed by
  its own star: "/*/ x */" leaves " x */" (`Comments.SlashStarSlash`).
- The block-comment loop cuts from the first `/*` to two characters past the first `*/` of the
  whole text, even when that `*/` comes before the `/*`. When a round would not shorten the text,
  the Go loop never ends. The model returns `Err(MalformedComment)` there and proves that the
  source's loop from that point never reaches a text without `/*` (`Comments.SourceLoopDiverges`).
- One might expect comment stripping to be idempotent; it is not. Each line is cut at its last `//`, so a second pass cuts
  again: "a // b // c" becomes "a // b", then "a" (`Comments.LineCutNotIdempotent`).
- One might expect a missing closing brace to give an empty or partial block. Instead the final slice of `FindStructBlock` would be out of range and
  Go would panic. The model returns `Err(UnclosedStruct)`.
- One might expect a bare `uniqueIndex` to add the field to the index named after it. Instead it
  replaces that index with just the field, dropping members other fields had added
  (`Directives.OwnIndexResets`).

## Model

| member | source | states |
|---|---|---|
| Squeeze.Squeeze | main.go:67-84 | the result is the squeezed text, has no two neighbouring `c`, keeps every other character in order, and is the input when `c` does not occur |
| Squeeze.SqueezedNoDoubled | main.go:67-84 | no run of `c` survives squeezing |
| Squeeze.SqueezedWithout | main.go:67-84 | squeezing removes only copies of `c` |
| Squeeze.SqueezedIdentity | main.go:67-84 | text without `c` is unchanged |
| Squeeze.SqueezedShorter | main.go:67-84 | squeezing never lengthens the text |
| Squeeze.SqueezedRun | main.go:67-84 | a run of `c` after a text not ending in `c` becomes one `c` |
| Squeeze.SqueezedAppendFree | main.go:67-84 | text free of `c` after any prefix is kept whole |
| Comments.RemoveBlockComments | main.go:111-117 | the block-comment loop yields the text of the repeated first-`/*`-to-first-`*/` cuts, or MalformedComment at the first round that would not shorten the text; it runs only when both markers occur |
| Comments.RemoveComments | main.go:107-129 | the result is the block stage followed by the line pass: each line trimmed, cut at its last `//`, trimmed again, empty ones dropped, joined by newlines |
| Comments.StripBlocksOk | main.go:111-117 | when the loop ends, no `/*` is left and no newline was added |
| Comments.BlockStageClearsOpeners | main.go:111-117 | with both markers present and a successful loop, no `/*` remains |
| Comments.BlockStagePaired | main.go:111-117 | text whose block comments are properly paired (no `*` outside the markers, no comment body starting with "/") comes out of the block stage as exactly the text between the comments, in order |
| Comments.StripPaired | main.go:113-116 | the loop run on a star-free prefix followed by paired comments removes each comment in turn and keeps all the rest |
| Comments.PairStep | main.go:113-116 | one round on a star-free prefix followed by a comment with a star-free body not starting with "/" removes exactly that comment |
| Comments.SlashStarSlash | main.go:113-116 | "/*/ x */" loses only "/*/": the opener's own star begins the first closer |
| Comments.StripBlocksMatchesLoop | main.go:113-116 | on success the source's loop, run long enough, stops with exactly the model's text |
| Comments.StallPersists | main.go:113-116 | a round that does not shorten the text leaves a `/*` and is followed by another such round |
| Comments.SourceLoopDiverges | main.go:113-116 | whenever the model reports MalformedComment, the source's loop holds a `/*` after any number of rounds |
| Comments.MisorderedMarkersFail | main.go:111-116 | "*/ /*" is reported malformed, and the source's loop never leaves it |
| Comments.CleanLinesShape | main.go:118-127 | every kept line is non-empty, trimmed and newline-free, and there are no more kept lines than input lines |
| Comments.StripCommentsLines | main.go:107-129 | the output's lines are non-empty and trimmed, and there are no more of them than the input has |
| Comments.StripSingleLine | main.go:107-129 | a single line without `/*` goes through the line pass alone |
| Comments.CleanLineCut | main.go:119-122 | a trimmed line whose last `//` is followed by no "/" is cut to the trimmed text before that marker |
| Comments.CleanLineCutTrim | main.go:119-122 | a trimmed line made of a word, " //" and a tail with no "/" is cut to that word |
| Comments.CleanLineTwoMarkers | main.go:119-122 | "a // b // c" is cut to "a // b" |
| Comments.CleanLineOneMarker | main.go:119-122 | "a // b" is cut to "a" |
| Comments.LineCutNotIdempotent | main.go:118-128 | stripping "a // b // c" gives "a // b", and stripping that again gives "a" |
| Patterns.FirstHeaderIsLeftmost | main.go:132-136 | the header scan finds no match exactly when the header pattern matches nowhere; otherwise it returns a match with no match starting further left, and that match's only end |
| Patterns.HeaderEndComplete | main.go:132 | every match of the header pattern at a position is the one the scanner reports there |
| Patterns.FirstStructLineIsLeftmost | main.go:170-171 | the struct-line scan finds no match exactly when `type\s+\w+\s+struct` matches nowhere in the line; otherwise a match with none further left |
| Patterns.StructLineComplete | main.go:170 | every split of a text as type, spaces, a word, spaces, struct is found by the scanner, with the word's bounds |
| Patterns.NameOfMatchIsIdentifier | main.go:171 | trimming "struct", "type" and spaces off the matched text leaves exactly the matched word |
| Patterns.TagSpanIsLeftmostLongest | main.go:168-176 | the tag is the span from the first backtick to the last one: the leftmost, longest match of "\`.*\`", found exactly when the pattern matches |
| Patterns.Tag | main.go:176 | the tag is empty or a match of the tag pattern |
| Patterns.RemoveTag | main.go:177 | deleting every occurrence of the tag removes exactly the tag's span from the line |
| Patterns.IgnoreHasQuoteDash | main.go:195 | a tag matched by `gorm:"-[^"]*"` has a quote directly before a dash, so a tag whose dashes follow other characters, such as gorm:"<-:false", is not ignored |
| Patterns.IgnoreExample | main.go:195 | the tag "\`gorm:\"-\"\`" is ignored |
| Patterns.FirstGormIsLeftmost | main.go:199-201 | the gorm scan finds no match exactly when `gorm:"[^"]+"` matches nowhere; otherwise a match with none further left, and that match's only end |
| Patterns.GormEndComplete | main.go:199 | every gorm match at a position is the one the scanner reports there |
| StructBlock.FindStructBlock | main.go:131-152 | the result is empty when no header matches, UnclosedStruct when no brace closes it, and otherwise the text from the header to the brace that brings the depth back to zero |
| StructBlock.MatchIndex | main.go:136-138 | searching for the matched header text finds it at the match's own position |
| StructBlock.LocateBlockEmpty | main.go:133-135 | the result is empty exactly when the header pattern matches nowhere |
| StructBlock.ScanDepth | main.go:139-150 | the depth loop stops at the first byte after the header that brings the brace depth to zero, or at the end of the text when none does |
| StructBlock.BlockShape | main.go:131-152 | with text[p..q] the first header match, a found block starts at the header match, spans a header match, begins with "type", ends with "}", has as many "{" as "}", and every prefix past the header has more "{" |
| StructBlock.UnclosedIff | main.go:140-151 | UnclosedStruct is returned exactly when a header exists and the depth stays positive through every later position |
| StructBlock.HeaderBraces | main.go:132 | a header match holds one "{" and no "}" |
| Schema.FieldNamesAppend | main.go:232 | appending a field adds exactly its name to the declared names |
| Schema.AppendWellFormed | main.go:232 | appending a field that is not ignored, with every key naming a declared field or the new one, keeps the StructInfo well formed |
| Directives.ApplyDirectives | main.go:203-231 | the item loop applies each item's directive in order and stops after the first foreignkey, reporting whether it met one |
| Directives.ApplyItem | main.go:205-229 | one item: trimmed and lower-cased, split at ":" into key and second segment; uniqueindex appends the field to that index, column sets its column, foreignkey deletes its column entry and stops, bare uniqueindex and primarykey as in the source, anything else does nothing |
| Directives.ApplyTrimmed | main.go:206-229 | one trimmed, lower-cased item has the effect of the directive it reads as, and stops the loop exactly when that directive is foreignkey |
| Directives.ExternalIffForeignKey | main.go:216-219 | a field is marked external exactly when one of its items is a foreignkey |
| Directives.ForeignKeyStops | main.go:216-219 | the items after the first foreignkey have no effect, and the field ends without a column entry |
| Directives.ApplyAllPrimaryKeys | main.go:226-227 | the primary keys gain one copy of the field per bare primarykey before the first foreignkey |
| Directives.ApplyAllColumns | main.go:214-218 | the field's column entry is deleted after a foreignkey; otherwise it is the last column value, or left as it was; other entries are untouched |
| Directives.ApplyAllGroups | main.go:209-213 | every index other than the field's own gains the field once per matching uniqueindex item, in order, and exists afterwards exactly when it existed or gained a member |
| Directives.ApplyAllKeys | main.go:204-231 | the items never change the field list or the struct name, and add no key name other than the field's |
| Directives.OwnIndexResets | main.go:216-225 | when no uniqueindex:<field> item comes before the first foreignkey, a bare uniqueindex before it leaves the index named after the field as exactly that field, whatever follows the foreignkey |
| Directives.DirectiveCaseInsensitive | main.go:205 | an item and its lower-cased form are the same directive |
| Directives.GroupExample | main.go:207-213 | "uniqueindex:ui_sg,priority:1" selects index "ui_sg,priority": a value ends at its next ":" |
| StructParse.FieldNameOf | main.go:155-160 | the name is the part after the last dot, contains no dot, and is the whole text when there is no dot |
| StructParse.ParseStructBlock | main.go:154-236 | the result is the fold of the per-line step over the block's lines, from the empty StructInfo |
| StructParse.ParseFieldLine | main.go:169-234 | one iteration of the line loop, with each early return standing for a `continue` |
| StructParse.SplitDeclaration | main.go:184-190 | the declaration is squeezed and split at spaces: two words are name and type, one word is an embedded type named by FieldNameOf, anything else is empty |
| StructParse.GormDirectives | main.go:199-231 | the body between the quotes of the leftmost gorm match, trimmed and split at ";", is applied item by item |
| StructParse.GormMatchIs | main.go:199-203 | the leftmost gorm match is a match of `gorm:"[^"]+"`, the body is its text between the quotes, trimmed, and the items are that body split at ";" |
| StructParse.GormMatchAt | main.go:201-202 | a gorm match needs no trimming, is at least 8 characters long, and its text between the quotes is the tag's text at the same place |
| StructParse.DeclarationOfTwoWords | main.go:184-187 | a name and a type separated by any run of spaces give that name and type |
| StructParse.DeclarationOfOneWord | main.go:188-189 | a single word is the type, and the field is named after the part past its last dot |
| StructParse.DeclarationOfMoreWords | main.go:184-190 | three or more words leave both name and type empty |
| StructParse.EmbeddedModel | main.go:155-160 | the embedded type gorm.Model gives a field named Model |
| StructParse.UntaggedIs | main.go:175-180 | a line's declaration text is the line without its first-to-last backtick span, trimmed |
| StructParse.HeaderLineSetsName | main.go:170-174 | a struct line sets the struct name to the matched word and changes nothing else |
| StructParse.NonFieldLineChangesNothing | main.go:181-198 | a blank line, a line ending in "}" and an ignored field change nothing |
| StructParse.WithItemsFacts | main.go:199-233 | with a gorm body, the field is appended and marked external exactly when a foreignkey item occurs; the struct name is kept; the primarykey items are appended; no name but the field's enters the keys |
| StructParse.FieldLineAppends | main.go:184-233 | a field line appends exactly its own field, keeps the struct name, appends its primarykey items, and adds no key name but its field's |
| StructParse.WithItemsColumn | main.go:200-218 | a gorm body first gives the field the naming strategy's column name; then a foreignkey removes the entry or the last column item replaces it |
| StructParse.FieldLineColumn | main.go:199-218 | a field line's column entry: unchanged without a gorm body, removed after a foreignkey, else the last column value or the strategy's name; others untouched |
| StructParse.NoGormLine | main.go:199-233 | a field line without a gorm body appends its field, not external, and nothing else |
| StructParse.FieldLineGroups | main.go:209-213 | a field line adds its name to each index other than its own once per uniqueindex item, in order |
| StructParse.ParseLineWellFormed | main.go:169-234 | each line keeps the StructInfo well formed |
| StructParse.ParseAllWellFormed | main.go:161-235 | after any lines, every primary key, index member and column-map key names a declared field, and no listed field is ignored |
| StructParse.ParseAllFields | main.go:169-234 | the field list and primary keys are the lines' own contributions, in line order |
| StructParse.ParseBlockFacts | main.go:154-236 | ParseStructBlock's result is well formed and lists the block's fields and primary keys in line order |
| StructParse.EmptyBlock | main.go:161-167 | an empty block gives the empty StructInfo |

## Left out

- ToLower: only ASCII letters are lower-cased; Go's strings.ToLower also maps other Unicode letters.
  Every key the parser compares against is ASCII.
- Bytes and runes: a Dafny `char` stands for one character of the Go string. `squeeze` and the
  brace scan walk bytes, but every character they compare against is ASCII, so the results agree.
- Regular expressions: only the five patterns the core uses are modelled, each by its own matcher.
  There is no general regex engine.
- StructBlock.FindStructBlock: requires a name without regex metacharacters or spaces, because the
  source pastes the name into a pattern. The text the pattern would then match is left out.
- Patterns.TagSpan and everything that uses it assume a line without a newline. The parser only
  calls it on the pieces of a split at "\n".
- The gorm naming strategy (`schema.NamingStrategy.ColumnName`) is foreign code. It is the parameter
  `columnName`.
- Panics and an endless loop are modelled as `Err` results (UnclosedStruct, MalformedComment).
- FieldInfo pointers: the source stores `*FieldInfo`. The model stores values, since nothing updates
  a FieldInfo after it is appended. The Ignored flag is set only on a FieldInfo that is then
  discarded, so no listed field is ever ignored.
- `String()` methods, `main`, the test struct texts and the file-reading front end are output and
  fixtures, not part of the core.
- The `embeddedprefix` item: the source has an empty branch for it, and so does the model.
