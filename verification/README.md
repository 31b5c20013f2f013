# Tamil HTML/CSS compiler and editor helpers, in Dafny

A verified model of the core of the Tamil-HTML-CSS editor extension. The
extension lets authors write web pages with Tamil (or another Indian
language's) tag and style names. It compiles them to ordinary HTML and CSS by
dictionary substitution, and offers editor helpers on the native-language
source. The model covers:

- **the compiler** (`src/compiler.ts`): `compileCSS`, and the three stages of
  `compile`:
  1. quoted `பாணி="..."`/`style="..."` attribute values go through the style
     dictionary;
  2. `<பாணி ...>...</பாணி>` / `<style>` block bodies go through `compileCSS`;
  3. the tag dictionary runs over the whole text, behind a
     `<!DOCTYPE html>\n` line.

  Every dictionary pass is the longest-key-first `split(k).join(v)` loop.
- **the locale converter** of the "switch language" command. It inverts the
  target dictionary (the last entry wins), renames every `<tag` / `</tag`
  that is followed by a space or `>`, and names the new file.
- **the quick fix** that offers to turn a canonical tag on the current line
  into its native form.
- **the document formatter**, which trims lines and re-indents them by two
  spaces per open tag.
- **the Emmet-style expander**, which turns `a>b>c` into nested native tags.
- **the unknown-tag diagnostics**, in both the newer (`out/extension.js`) and
  the older (`src/extension.ts`) rules.
- **the run command**: the `.thtml` guard and the insertion of the `<base>`
  tag.

Dictionaries are parameters, not global locale state. Each one is a sequence
of `Entry(key, value)` in insertion order, as JavaScript object iteration
gives them. Each regular expression is a hand-written scanner for that
pattern. Each loop of the source is a method proved equal to a specification
function, and the properties are lemmas about those functions.

Modules, one per file:

| module | what it holds |
|---|---|
| `Wrappers` | `Option` |
| `Strings` | JavaScript string operations: `indexOf`, `includes`, `split`, `join`, `replace`, `trim`, `repeat` |
| `Dictionary` | entries, the stable longest-first sort, the inverted map |
| `TagScan` | the `<\/?(name+)` scanners of the diagnostics and of the quick fix |
| `Compiler` | `compileCSS` and `compile` |
| `Converter` | the cross-locale tag rewrite and the new-path rule |
| `QuickFix` | the code-action provider |
| `Formatter` | the formatting provider |
| `Emmet` | the abbreviation completion |
| `Diagnostics` | `updateDiagnostics` |
| `Preview` | the run command |

## Model

| member | source | states |
|---|---|---|
| Strings.IndexFrom | src/compiler.ts:307 | `indexOf` from a start index: the result is an occurrence, none comes before it, and `None` only when none occurs at all |
| Strings.IndexOfContains | src/extension.ts:83-84 | `includes` holds exactly when `indexOf` finds an occurrence |
| Strings.SplitJoinIsReplaceAll | src/compiler.ts:292 | `s.split(k).join(v)` equals the left-to-right, non-overlapping literal replacement of `k` by `v`, also for the empty key |
| Strings.ReplaceAllAbsent | src/compiler.ts:307 | a replacement whose key does not occur leaves the text unchanged |
| Strings.ReplaceJoin | src/compiler.ts:292 | replacing a key in a text made of key-free parts joined by the key gives the same parts joined by the value |
| Strings.SplitJoinRoundTrip | src/compiler.ts:292 | `s.split(k).join(k)` gives `s` back |
| Strings.SplitFromJoined | out/extension.js:370 | joining `c`-free parts with `c` and splitting on `c` gives the parts back |
| Strings.SplitFromParts | out/extension.js:370 | no part that `split(c)` returns contains `c` |
| Strings.ReplaceFirst | src/extension.ts:84 | `replace` with a string pattern changes only the first occurrence, and leaves the text alone when there is none |
| Strings.TrimStart | out/extension.js:372 | `trimStart` drops exactly the leading white space |
| Strings.TrimEnd | out/extension.js:400 | `trimEnd` keeps a prefix, drops only white space, and ends in a visible character |
| Strings.TrimBounds | out/extension.js:372 | `trim` keeps one slice of the line: everything before and after it is white space, and the slice neither starts nor ends with white space |
| Strings.TrimWithin | out/extension.js:372 | what `trim` keeps occurs in the original line |
| Strings.TrimIndented | out/extension.js:382 | trimming an indented trimmed line removes exactly the indentation |
| Dictionary.Insert | src/compiler.ts:289 | one insertion step of the sort adds exactly the new entry |
| Dictionary.SortByLength | src/compiler.ts:289 | the sorted keys are a permutation of the dictionary |
| Dictionary.SortLongerFirst | src/compiler.ts:289 | the sorted keys come in non-increasing length, as `b.length - a.length` orders them |
| Dictionary.SortStable | src/compiler.ts:289 | the sort is stable: keys of equal length keep their dictionary order |
| Dictionary.SortDistinct | src/compiler.ts:289 | sorting keeps distinct keys distinct |
| Dictionary.LongerKeyFirst | src/compiler.ts:289-293 | a strictly longer key is processed before a shorter one |
| Dictionary.ReverseDomain | out/extension.js:217-220 | the inverted map has an entry for every canonical value of the dictionary, and only for those |
| Dictionary.ReverseLastWins | out/extension.js:217-220 | when several keys share a value, the inverted map sends the value to the last of them |
| Dictionary.BuildReverse | out/extension.js:217-220 | the `for (const [native, eng] of Object.entries(...))` loop builds exactly the inverted map |
| TagScan.RunEnd | out/extension.js:559 | the longest run of name characters: all of them are name characters, and the one after is not |
| TagScan.TagNameAt | out/extension.js:559 | a `<\/?(name+)` match starts at a `<` and captures a non-empty name that lies inside the match |
| TagScan.TagNameShape | out/extension.js:559 | the captured name is the longest run of name characters right after `<` or `</`, and it ends the match |
| TagScan.MatchedName | out/extension.js:559 | every character of a captured name is a name character |
| TagScan.TagNameFound | out/extension.js:559-561 | every `<` followed, after an optional `/`, by a name character starts a match |
| TagScan.NoTagNameWithoutLt | src/extension.ts:248 | no match starts anywhere but at a `<` |
| TagScan.IndexWithin | out/extension.js:567 | `match[0].indexOf(p)` finds an occurrence of `p` inside the matched text |
| TagScan.IndexWithinFinds | out/extension.js:567 | it finds the first such occurrence, at or before any other |
| TagScan.NameStart | out/extension.js:567-568 | the name's start offset lies in the match and the name occurs there |
| Compiler.ApplyAbsent | src/compiler.ts:291-293 | keys that do not occur leave the text unchanged |
| Compiler.ApplyAppend | src/compiler.ts:304-313 | running the style keys and then the tag keys is running the two lists one after the other |
| Compiler.Substitute | src/compiler.ts:289-293 | the longest-first `for (const k of sortedKeys) text = text.split(k).join(map[k])` loop applies every entry of the sorted dictionary in turn |
| Compiler.ExactKeyResolves | src/compiler.ts:289-293 | with keys applied longest first, a text that is exactly one key becomes that key's value |
| Compiler.LongestKeyWins | src/compiler.ts:4-22 | longest-key precedence for a text that is exactly one key: a key such as `தலைப்பு1` compiles to its own value even though it contains the shorter keys `தலை` and `தலைப்பு` |
| Compiler.KeyInContext | src/compiler.ts:289-293 | longest-key precedence inside a text: occurrences of a key between parts that share no character with any key all become its value and the parts stay as they are, even when shorter keys are prefixes of it, provided the value shares no character with the other keys |
| Compiler.HeadingExample | src/compiler.ts:4-22 | with the entries `தலை` → `head`, `தலைப்பு` → `title`, `தலைப்பு1` → `h1`, `<தலைப்பு1>x</தலைப்பு1>` compiles to `<!DOCTYPE html>\n<h1>x</h1>` |
| Compiler.CompileCSS | src/compiler.ts:301-316 | `compileCSS` applies every style key, longest first, and then every tag key, longest first |
| Compiler.StyleDictionaryWins | src/compiler.ts:304-313 | a style text that is exactly a style key becomes its style value even when the tag dictionary has the same key (`திசை` → `flex-direction`, not `nav`) |
| Compiler.StyleTokenInContext | src/compiler.ts:301-316 | inside a longer style text, every occurrence of a style key between key-free parts becomes its style value and the tag pass leaves it alone, when the value shares no character with the tag keys |
| Compiler.AttrAt | src/compiler.ts:262 | a match of `பாணி` or `style`, then `="`, a quote-free value and `"`, covers exactly the text it stands for |
| Compiler.AttrPiecesRaw | src/compiler.ts:262-271 | stage 1 cuts the text into pieces that put back together give the text |
| Compiler.AttrRegionShape | src/compiler.ts:262-271 | every rewritten region is the attribute name with `="`, a quote-free value and the closing quote, and only the value is rewritten |
| Compiler.AttrPassNoMatch | src/compiler.ts:262-271 | stage 1 changes nothing where no quoted style attribute occurs |
| Compiler.UnterminatedAttribute | src/compiler.ts:262 | an attribute whose closing quote never comes does not match, and its text is copied unchanged |
| Compiler.AttrRenderStep | src/compiler.ts:262-271 | one scan step emits one character, or an attribute with its value rewritten |
| Compiler.RewriteAttrAt | src/compiler.ts:262-271 | one round of the stage 1 `replace` emits what the specification emits for that step |
| Compiler.RewriteStyleAttributes | src/compiler.ts:262-271 | the stage 1 loop, with the callback's own key loop, computes stage 1 |
| Compiler.CloseTagFrom | src/compiler.ts:276 | the non-greedy body ends at the first `</பாணி>` or `</style>`, and at none if there is none |
| Compiler.OpenTagAt | src/compiler.ts:276 | the open tag of a style block is `<பாணி` or `<style`, `>`-free attribute text, and the first `>` |
| Compiler.BlockAt | src/compiler.ts:276 | a style block match covers exactly its text and has the style-block shape |
| Compiler.BlockFound | src/compiler.ts:276-285 | the block built from an open tag and its first closing tag is a region of the shape stage 2 rewrites |
| Compiler.BlockPiecesRaw | src/compiler.ts:276-285 | stage 2 cuts the text into pieces that put back together give the text |
| Compiler.BlockStep | src/compiler.ts:276-285 | each stage 2 piece covers the text from one index to the next |
| Compiler.BlockRegionShape | src/compiler.ts:276-285 | every rewritten block keeps its open tag, attribute text and close tag; its body holds no closing style tag |
| Compiler.BlockPassNoMatch | src/compiler.ts:276-285 | stage 2 changes nothing where no closed style block occurs |
| Compiler.UnclosedBlock | src/compiler.ts:276 | a style block with no closing tag after it does not match, and its text is copied unchanged |
| Compiler.UnclosedHasNoStyleBlock | src/compiler.ts:276 | a text without closing style tags has no style block |
| Compiler.BlockRenderStep | src/compiler.ts:276-285 | one scan step emits one character, or a block with its body compiled |
| Compiler.RewriteBlockAt | src/compiler.ts:276-285 | one round of the stage 2 `replace`, calling `compileCSS`, emits what the specification emits for that step |
| Compiler.RewriteStyleBlocks | src/compiler.ts:276-285 | the stage 2 loop computes stage 2 |
| Compiler.Compile | src/compiler.ts:257-299 | `compile` runs the three stages in order and always starts with `<!DOCTYPE html>\n` |
| Compiler.CompileUntouched | src/compiler.ts:257-299 | text with no tag key, no quoted style attribute and no closed style block compiles to the doctype line followed by the text unchanged |
| Converter.TagAt | out/extension.js:227 | a `<(\/?)src([ >])` match is `<`, an optional `/`, the token, and a space or `>` |
| Converter.TagAtMatches | out/extension.js:227 | the scanner matches exactly where one of `<src `, `<src>`, `</src ` and `</src>` occurs |
| Converter.RetagSelf | out/extension.js:228 | renaming a tag to itself gives the text back, so the rewrite loses and duplicates nothing |
| Converter.RetagUntouched | out/extension.js:227-228 | a text in which the token never follows `<` or `</` and precedes a space or `>` is left as it is |
| Converter.RenameBack | out/extension.js:227-228 | renaming `src` tags to `dst` and then `dst` tags back to `src` gives the text back, when `dst` holds neither `<` nor `/` and no `dst` tag occurred in the text before |
| Converter.CounterpartFromTarget | out/extension.js:217-225 | an entry's counterpart is the native key of the last target entry with the same canonical tag, and there is none when that key is empty |
| Converter.NoCounterpartInTarget | out/extension.js:217-225 | an entry whose canonical tag no target entry has has no counterpart |
| Converter.ConvertLocale | out/extension.js:217-230 | the conversion loop computes the conversion over the source entries in order |
| Converter.NoCounterpartSkipped | out/extension.js:223-225 | a source entry whose canonical tag the target lacks leaves the text untouched |
| Converter.NothingToConvert | out/extension.js:223-230 | when no entry has a counterpart, the text is unchanged |
| Converter.ConvertSameLocale | out/extension.js:221-230 | when every counterpart is the entry's own key, the text is unchanged |
| Converter.SelfConversion | out/extension.js:210-230 | a locale whose canonical tags are distinct converts to itself unchanged |
| Converter.NewPathAsWritten | out/extension.js:232-235 | as written: the first occurrence of the HTML extension (when the path ends with it) or of the CSS extension is replaced, anywhere in the path |
| Converter.NewPathSwapsFolder | out/extension.js:233-235 | as written, a folder named like the extension takes the swap and the file keeps its old extension |
| Converter.NewPath | out/extension.js:232-235 | as intended: the trailing extension is exchanged for the target's, and the rest of the path is kept |
| Converter.SwapSuffix | out/extension.js:235 | exchanging a suffix keeps the stem and ends with the new suffix |
| Converter.SwapSuffixBack | out/extension.js:235 | exchanging the extension back restores the path |
| Converter.AsWrittenAgrees | out/extension.js:233-235 | when the extension occurs only at the end of the path, the rule as written and the intended rule agree |
| Converter.ConvertDocument | out/extension.js:221-236 | the new document holds the converted text; under the corrected path rule `Converter.NewPath` (see Findings), a `.thtml`-style file gets the target's HTML extension on the same stem |
| QuickFix.NativeForFromDict | out/extension.js:344-345 | the native name offered for a tag is the key of the last dictionary entry whose canonical tag it is, and there is none when that key is empty or is the tag itself |
| QuickFix.NoNativeFor | out/extension.js:344-345 | a tag that is no entry's canonical tag gets no native name |
| QuickFix.FixAt | out/extension.js:342-353 | one `tagRegex.exec` round adds what the specification adds for that step |
| QuickFix.ProvideFixes | out/extension.js:329-356 | the provider returns the actions for the line's tags, in the order they are found |
| QuickFix.FixesSound | out/extension.js:340-353 | every action comes from a tag on the line with a differing native form, and renames that tag everywhere in the document |
| QuickFix.NoEnglishTagsNoFixes | out/extension.js:344-345 | a line none of whose tag names is a canonical tag of the dictionary gets no action |
| QuickFix.FixOfAbsentTag | out/extension.js:349 | an action's text is the document unchanged when its tag does not occur as an opening or closing tag |
| QuickFix.FirstFixOffered | out/extension.js:342-352 | the first tag of the line with a differing native form gives the first action, titled with that native name |
| Formatter.SameLineCloseImpossible | out/extension.js:386-392 | the check for `</name>` can never fail once the line holds no `</` |
| Formatter.IndentChange | out/extension.js:378-394 | the indentation grows by two exactly after an opening line; it shrinks only at a `</` line, never below zero |
| Formatter.OutLines | out/extension.js:371-398 | one output line per input line |
| Formatter.FormatLine | out/extension.js:372-397 | the loop body appends the trimmed line indented (or nothing when blank) and a newline, and moves the indentation on |
| Formatter.Format | out/extension.js:366-400 | the formatting loop, then `trimEnd`, computes the formatted document |
| Formatter.LineOutTrim | out/extension.js:372-382 | a formatted line is the trimmed input line behind spaces; it is empty only for a blank line, and never ends in white space |
| Formatter.LineOutOneLine | out/extension.js:382 | formatting never puts a line break inside a line |
| Formatter.OutLineAt | out/extension.js:371-382 | each output line is its own input line, trimmed, at the indentation that formatting the lines before it reached (`IndentAfter` of the preceding lines), and it does not end in white space |
| Formatter.OutLinesPrefix | out/extension.js:371-398 | the output for a prefix of the lines is a prefix of the output |
| Formatter.ReformatLines | out/extension.js:371-398 | formatting the output lines again gives the same lines |
| Formatter.Kept | out/extension.js:400 | the output lines up to the last non-blank one; only blank lines come after it |
| Formatter.TrimConcat | out/extension.js:400 | the final `trimEnd` drops exactly the trailing blank lines and the last newline |
| Formatter.FormattedLines | out/extension.js:370-400 | the formatted document is the output lines up to the last non-blank one, joined by newlines |
| Formatter.ReformatEmpty | out/extension.js:366-400 | an empty document formats to itself |
| Formatter.FormatIdempotent | out/extension.js:366-400 | formatting a formatted document changes nothing |
| Emmet.AbbreviationFrom | out/extension.js:411-412 | `/(\w+)(>(\w+))+$/` matches at the leftmost index from which the rest of the line is two or more `\w` names separated by `>` |
| Emmet.Pick | out/extension.js:444 | a typed name becomes its mapped name exactly when that is present and non-empty, and stays as typed otherwise |
| Emmet.NameTranslation | out/extension.js:418-444 | an alias becomes the native form of its canonical tag (or that tag); any other name its native form, or itself |
| Emmet.SnippetNests | out/extension.js:442-464 | the opening tags, `$0` and the closing tags form properly nested tags, each closed in reverse order at the depth it opened |
| Emmet.ExpansionNests | out/extension.js:435-464 | an expansion of `n >= 2` names is `n` tags nested in the order typed, and it replaces exactly the abbreviation |
| Emmet.OpenTags | out/extension.js:442-450 | the opening loop emits one tag per name, each on a new line two spaces deeper, and ends at the innermost depth |
| Emmet.CloseTags | out/extension.js:454-464 | the closing loop emits the closing tags innermost first, each one two spaces further out, back to depth zero |
| Emmet.Expand | out/extension.js:409-472 | the provider returns the specified completion, or none when the line does not end in an abbreviation |
| Diagnostics.Update | src/extension.ts:240 | diagnostics are computed exactly for file names ending in the HTML extension |
| Diagnostics.ScanAt | out/extension.js:561-573 | one `regex.exec` round adds what the specification adds for that step |
| Diagnostics.Scan | src/extension.ts:248-275 | the `while` loop collects exactly the specified diagnostics |
| Diagnostics.UpdateDiagnostics | out/extension.js:545-575 | `updateDiagnostics` applies the file-name guard, then scans the whole text |
| Diagnostics.FoundAtSound | out/extension.js:562-572 | a match gives one diagnostic exactly when its name is neither skipped nor a key, and none otherwise; the diagnostic lies inside the match |
| Diagnostics.DiagnosticsSound | out/extension.js:559-573 | every diagnostic's range covers exactly a name that is neither skipped nor a key and holds no `>` or white space, and its message names it |
| Diagnostics.DiagnosticsOrdered | out/extension.js:559-573 | diagnostics come in text order with ranges that do not overlap |
| Diagnostics.KnownTagsClean | src/extension.ts:255-260 | a text whose every tag name is a key or is skipped gets no diagnostic |
| Diagnostics.FirstTagReported | out/extension.js:561-571 | an unknown name at the first `<` gives the first diagnostic, starting where the name starts and naming it |
| Preview.InsertBase | src/extension.ts:83-85 | with a `<head>` the base tag goes on a new line right after the first `<head>`; otherwise the base tag and a newline are prepended |
| Preview.HeadAfterDoctype | src/compiler.ts:298 | a `<head>` never starts inside the doctype line |
| Preview.InsertBaseKeepsDoctype | src/extension.ts:83-85 | inserting the base tag after `<head>` keeps the doctype line first |
| Preview.Run | src/extension.ts:67-85 | the run command refuses, with its message, exactly the files not ending in `.thtml` |
| Preview.RunOpensCompiledPage | src/extension.ts:72-85 | a `.thtml` file whose inlined page starts with the doctype opens as that page with the base tag inserted: right after the first `<head>`, doctype still first, or before the doctype when there is no `<head>` |

## Left out

- The stylesheet inliner (`processTcssLinks`, `processCssLinks`) reads files. `Preview.Run` takes it as a function parameter.
- The file system, temporary files and the browser launch of the run command are not modelled. The same goes for `workspace.fs` and opening the converted document.
- The colour picker works in floating point (`parseFloat`, division by 255, `Math.round`).
- Hover, completion lists, tree views, webview panels, status messages and the registration of providers are host UI with no logic to state.
- `loadLocale` and the language table (`getLanguageFromExt`, `finalSupportedLanguages`) are not part of this model. Dictionaries and file extensions are parameters, and a file whose language is unknown is not modelled.
- The run command of `out/extension.js` has a multi-language extension guard; it is not modelled. Its base-tag insertion (out/extension.js:113-115) is the same as `Preview.InsertBase`.
- The quick pick and the awaits of the "switch language" command are left out; only the conversion and the path rule are modelled.
- Replacement patterns such as `$&`, `$1` and `$'` inside inserted text are not modelled: native tag names, dictionary values and the folder path are taken literally. This affects `Converter.Retag`, `QuickFix.FixFor` and `Preview.InsertBase`.
- Dictionary keys inherited from `Object.prototype` (such as `constructor`) are not modelled, and neither is the reordering of integer-like object keys. The dictionaries are plain sequences of entries.
- JavaScript strings are UTF-16 code units; the model uses code points. All Tamil letters lie in the Basic Multilingual Plane, where the two agree.
- Diagnostics.Diagnostic: ranges are character offsets into the document; the conversion to line and column by `positionAt` is not modelled.
- Formatter.Opens: the formatter's last test, that the line does not contain `</name>` for the tag name found, is dropped, because `Formatter.SameLineCloseImpossible` shows it can never fail after the earlier test for `</`.
- Emmet.Expand: the snippet is returned as text; its interpretation by the editor (the `$0` cursor) and the completion's range and documentation are not modelled.
- Converter.ConvertDocument: the new path follows the corrected rule `Converter.NewPath`, not the first-occurrence `replace` of out/extension.js:235; the rule as written is `Converter.NewPathAsWritten` (see Findings).
- Converting a document to another locale and back is not proved to restore it in general. The inverted maps keep the last native name per canonical tag, so a locale with shared canonical tags, or with native names that occur inside one another, does not come back unchanged. `Converter.RenameBack` proves the round trip of a single tag rename.
- `scripts/generate_readme.js` is a documentation generator that is not part of the extension's runtime.

## Findings

| source | as written | input that shows it | evidently intended | confidence | as-written member | corrected member |
|---|---|---|---|---|---|---|
| out/extension.js:233-235 | `oldPath.replace(oldExt, newExt)` replaces the first occurrence of the extension anywhere in the path | converting `/w/site.thtml/index.thtml` from `.thtml` to `.hhtml` names the new file `/w/site.hhtml/index.thtml` | the trailing extension is exchanged: `/w/site.thtml/index.hhtml` | medium, not executed | Converter.NewPathSwapsFolder | Converter.NewPath |
