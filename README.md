# md2blogger converter, modelled in Dafny

md2blogger turns a Markdown file into HTML ready to paste into a Blogger
post. Its converter package does two things:

- `Convert` configures the goldmark Markdown engine and runs it. The engine
  uses GitHub-flavoured Markdown and tables, passes raw HTML through, and
  generates heading IDs only when asked.
- `addBlankLinesBetweenBlocks` post-processes the engine's HTML. For each of
  thirteen block-level closing tags, in a fixed order, it calls Go's
  `strings.ReplaceAll` to turn every "tag + newline" into "tag + two
  newlines". Blogger then keeps a blank line between blocks.

The project has three modules.

- `GoStrings` (`go_strings.dfy`) models the two functions of Go's `strings`
  package the post-pass relies on, for a non-empty pattern. `Count` counts
  non-overlapping matches found left to right. `ReplaceAll` replaces them.
- `Spacing` (`spacing.dfy`) is an independent reference definition of the
  post-pass. `Spaced(s, tags)` reads the text one character at a time. A
  newline that directly follows a listed tag is written twice; every other
  character is written once. `Breaks` counts the doubled newlines. `Collapse`
  undoes `Spaced` (`Collapse(Spaced(s)) == s`), and `Image` gives the output position of each input
  character. The central theorem says that the chain of `ReplaceAll` passes
  equals `Spaced`. It holds whenever the tags are closing tags (they start
  with `<`, hold no other `<` and no newline) and none is listed twice. Such
  tags can never end the same text, so one pass neither creates nor hides a
  match for a later pass.
- `Converter` (`converter.dfy`) holds the block-tag list and the post-pass
  as a method with the source's loop. It also holds `Convert`, which takes
  the engine as a function parameter.

## Model

| member | source | states |
|---|---|---|
| GoStrings.ReplaceAll | converter/converter.go:51 | Each replacement changes the length by the replacement's length minus the pattern's, so the result's length is the input's plus the match count times that difference |
| GoStrings.CountZeroIffAbsent | converter/converter.go:51 | The non-overlapping match count is zero exactly when the pattern occurs nowhere in the text |
| GoStrings.ReplaceAllNoMatch | converter/converter.go:51 | With no match, ReplaceAll returns its input unchanged |
| GoStrings.ReplaceAllIdentity | converter/converter.go:51 | When the replacement's length differs from the pattern's, ReplaceAll leaves the text unchanged exactly when the pattern does not occur |
| Spacing.Spaced | converter/converter.go:49-53 | The reference post-pass is longer than its input by exactly the number of newlines that follow a listed tag |
| Spacing.ReplaceAllIsSpaced | converter/converter.go:51 | One pass, ReplaceAll(s, tag+"\n", tag+"\n\n"), equals the reference post-pass over that single tag, for every input text and every tag without a newline |
| Spacing.ReplaceAllIsSpacedAfter | converter/converter.go:51 | The same, generalised to any text already scanned, provided no match straddles the boundary; this is the induction that proves ReplaceAllIsSpaced |
| Spacing.BreaksSingleIsCount | converter/converter.go:51 | For one tag, the newlines the reference pass doubles are exactly the non-overlapping matches of tag+"\n" that ReplaceAll replaces |
| Spacing.SpacedCompose | converter/converter.go:50-52 | Running the reference pass for a list of tags and then for one more tag equals the reference pass for the extended list |
| Spacing.BreaksSplit | converter/converter.go:50-52 | The newlines doubled for a list extended by one tag are those doubled for the list plus those doubled for the new tag |
| Spacing.BreaksIsMatchTotal | converter/converter.go:50-52 | The newlines doubled for a list of tags equal the sum over the tags of the occurrences of tag+"\n" in the input |
| Spacing.MatchTotalZeroIff | converter/converter.go:50-52 | That sum is zero exactly when no tag+"\n" occurs in the input |
| Spacing.BreaksPreserved | converter/converter.go:50-52 | A pass over any tag list leaves the number of occurrences of f+"\n" unchanged, for every closing tag f |
| Spacing.SuffixPreserved | converter/converter.go:50-52 | The output ends with a newline-free string exactly when the input does |
| Spacing.AnyTagSuffixPreserved | converter/converter.go:50-52 | The output ends with one of a list of closing tags exactly when the input does |
| Spacing.NoUndoubledBreakAtEnd | converter/converter.go:51 | The output never ends with a listed tag followed by a single newline |
| Spacing.CollapseSpaced | converter/converter.go:49-53 | Removing the inserted newlines from the output gives back the input |
| Spacing.SpacedOnlyAddsNewlines | converter/converter.go:49-53 | Every character occurs in the output as often as in the input, except the newline, which occurs once more per doubled newline |
| Spacing.SpacedAt | converter/converter.go:49-53 | Input character i sits at its image position in the output; after a doubled newline the next output character is the inserted newline and the next image is two further on, otherwise one |
| Spacing.ImageMonotone | converter/converter.go:49-53 | Image positions strictly increase, so the input appears in the output in order, and the last image is the output's length |
| Spacing.SpacedIdentityIff | converter/converter.go:49-53 | The post-pass returns its input unchanged exactly when it doubles no newline |
| Spacing.SpacedPrefix | converter/converter.go:49-53 | Extending the input only extends the output: the output of a prefix is a prefix of the output |
| Spacing.SpacedNoNewline | converter/converter.go:49-53 | Text that holds no newline is copied through unchanged |
| Spacing.ListedTagDoubled | converter/converter.go:50-51 | A listed tag followed by a newline comes out as the tag followed by two newlines |
| Spacing.TagNewlineDoubled | converter/converter.go:50-51 | That blank line survives whatever text follows |
| Spacing.TwoBlocksSpaced | converter/converter.go:50-51 | Two newline-free blocks, each closed by a listed tag and a newline, come out with a blank line after each |
| Spacing.UnlistedTagCopied | converter/converter.go:39-47 | A closing tag that is not listed, followed by a newline, is copied unchanged |
| Spacing.UnlistedTagUnchanged | converter/converter.go:39-47 | An unlisted closing tag and its newline appear unchanged in the output, and no newline is inserted before the next character |
| Spacing.TagWithoutNewlineUnchanged | converter/converter.go:51 | A listed tag followed by anything but a newline, or by nothing, is copied unchanged along with that next character |
| Spacing.CopiedAfterNewline | converter/converter.go:51 | With closing tags listed, the character right after a newline is written once: the output for the text and that character is the output for the text followed by the character |
| Spacing.ClosingTagsUnique | converter/converter.go:39-47 | Two closing tags that end the same text are equal |
| Converter.BlockTagsWellFormed | converter/converter.go:39-47 | The thirteen block tags are closing tags and none is listed twice |
| Converter.InlineTagsNotListed | converter/converter.go:39-47 | `</li>`, `</code>` and `</td>` are closing tags that are not in the block list |
| Converter.PassesIsSpaced | converter/converter.go:49-53 | For any well-formed tag list, the chain of ReplaceAll passes in list order equals the reference post-pass |
| Converter.PassKeepsMatches | converter/converter.go:51 | One pass adds one newline per occurrence of tag+"\n", and leaves the number of occurrences of every closing tag followed by a newline unchanged, its own tag included |
| Converter.BlankLinesFacts | converter/converter.go:38-55 | For the block tags, the passes equal the reference post-pass; the output grows by the total matches; collapsing gives back the input; the output equals the input exactly when no block tag is followed by a newline |
| Converter.AddBlankLinesBetweenBlocks | converter/converter.go:38-55 | The loop over the block tags returns the reference post-pass of its input, longer by the total number of block-tag-plus-newline matches, which the inverse undoes, and unchanged exactly when there is no such match |
| Converter.TwoParagraphsExample | converter/converter.go:38-55 | Two paragraphs, each closed by `</p>` and a newline, come out with a blank line after each |
| Converter.ListItemExample | converter/converter.go:39-47 | A list item closed by `</li>` and a newline passes through unchanged |
| Converter.Configure | converter/converter.go:14-28 | The engine always gets GitHub-flavoured Markdown, tables and raw HTML passthrough; it gets automatic heading IDs exactly when they are asked for |
| Converter.Convert | converter/converter.go:13-36 | When the engine fails, the result is the empty string and the engine's error. Otherwise the result is the reference post-pass of the engine's HTML, there is no error, and removing the inserted newlines gives back the engine's HTML |

## Left out

- The goldmark engine is not modelled. `Convert` takes it as a function from configuration and Markdown to HTML or an error. The engine's options are recorded as plain configuration values. How GitHub-flavoured Markdown, tables, raw HTML and heading-ID slugs are rendered is outside the model.
- The `[]byte` conversion of the Markdown and the `bytes.Buffer` the engine fills are not modelled. The engine's output is taken as a string.
- cmd/md2blogger/main.go is not part of this model: its flag parsing, file and stdin I/O, and exit codes are left out.
- `Convert` is defined with two parameters, the Markdown and `enableIDs` (converter/converter.go:13). The tests and cmd/md2blogger/main.go:60 call it with the Markdown only. The model follows the definition.
- Go strings are byte sequences and Go's lengths count bytes; the model uses sequences of characters and counts characters. The post-pass matches only ASCII patterns and inserts only one-byte newlines, so both views double the same newlines, and the growth in length (one per doubled newline) is the same in bytes as in characters.
- GoStrings.ReplaceAll: Go's special case for an empty pattern is not modelled, because every pattern the post-pass uses ends with a newline and so is never empty.
- GoStrings.Count: the empty-pattern case is left out for the same reason.
- The post-pass is not idempotent, and nothing here claims it is: a second run turns "</p>\n\n" into "</p>\n\n\n".
