# Python highlighter and code-scene renderer, modelled in Dafny

This project models the core of a slide viewer for annotated Python code:

- `highlightPython` turns one line of Python into HTML spans. It works in two phases.
  - Phase A carries an open triple-quoted string from line to line in a small parser state.
  - Phase B cuts f-strings, triple-quoted strings, comments and strings out into tables, leaving placeholders behind. Then it colours keywords, decorators, control words, calls, class names, numbers and brackets. Finally it puts the tables back.
- `buildScenes` turns the lesson data into an ordered list of scenes.
- `fullRenderCode` renders a code scene:
  - it drops carriage returns and splits the code into lines;
  - it builds the annotation map from the scene's steps;
  - it highlights every line in order, threading one parser state through all of them;
  - it gives each line a fragment, with a phantom annotation row when an anchor occurs in it, and joins the fragments.

Modules (one file each):

| file | module | what it holds |
|---|---|---|
| `text.dfy` | `Text` | Character classes as the regular expressions see them (`\w`, line terminators, `\b`). Searching (`indexOf`, `includes`, lazy `.*?`). Decimal numerals. |
| `html.dfy` | `Html` | The three-step HTML escape, quote counting, spans, and stripping tags from markup. |
| `fstring.dfy` | `FString` | The f-string callback: its builder loop and the markup it produces. |
| `patterns.dfy` | `Patterns` | One matcher per regular expression of Phase B. `String.prototype.replace` with the global flag, as a scan and as a loop. |
| `passes.dfy` | `Passes` | What single passes do: comment extent, placeholder immunity and restoring, nested class spans. |
| `highlighter.dfy` | `Highlighter` | The parser state (a value `State` and the mutable `ParserState`), Phases A and B, and `HighlightPython`. |
| `render.dfy` | `RenderEngine` | Scenes, line splitting, the annotation map, line fragments and `FullRenderCode`. |

Imperative code stays imperative:
- `HighlightPython` is a method over the `ParserState` object and changes its fields as the source does. It recurses with the same object after a close, and with a throwaway object for the prefix before an opening quote.
- The f-string builder, every global replace, `buildScenes`, the annotation-map loops and the per-line `map` are methods with loops.
- Each method is proved equal to a value-level function, and the properties are proved about those functions.

Quirks of the code that the model keeps:
- A `#` inside a string literal starts a comment, because comments are cut out before strings (`Passes.CommentExtraction`).
- In general, stripping the tags from a highlighted line does not give the line back:
  - the recursive calls escape text that is already escaped (`Html.EscapeTwiceChanges`);
  - a string placeholder that a comment swallowed is never restored (`Passes.CommentRestoredVerbatim`);
  - a placeholder that the source itself spells out, with no table entry behind it, comes back as `undefined` (`Passes.LookupPlaceholder`).
- Placeholders are not quite inert: the call pass wraps one that is followed by `(` (`Passes.CallsSeePlaceholder`).

## Model

| member | source | states |
|---|---|---|
| Text.FindFrom | C210_team1/js/utils.js:12 | `indexOf`: the first occurrence at or after the start, none before it; when there is none, no occurrence anywhere |
| Text.FindOnLine | C210_team1/js/utils.js:48 | lazy `.*?` then a character: the first such character, with no line terminator before it; when there is none, the character is absent up to the end of the line |
| Text.DecimalRoundTrip | C210_team1/js/utils.js:136 | the number written into a placeholder reads back as the same array index and is canonical (no leading zero) |
| Html.EscapeIsPerChar | C210_team1/js/utils.js:5 | the three global replaces, `&` first, escape every character on its own, so no entity is escaped twice within one call |
| Html.UnescapeEscape | C210_team1/js/utils.js:5 | the escape is reversible: decoding the three entities gives the text back |
| Html.EscapeHasNoAngle | C210_team1/js/utils.js:5 | escaped text holds no `<` or `>`, so every `<` in the output comes from a tag the highlighter wrote |
| Html.EscapeKeepsQuotes | C210_team1/js/utils.js:5 | escaping keeps the number of quote characters |
| Html.EscapeTwiceChanges | C210_team1/js/utils.js:21 | escaping text that holds `&` a second time changes it, as the recursive calls do to the rest of the line |
| FString.NextInterpolation | C210_team1/js/utils.js:54-58 | the next `{…}` match begins at the leftmost `{` at or after the position that has a `}` after it on its line, and ends at the first such `}`; when no `{` has one, there is no match |
| FString.UnclosedIsText | C210_team1/js/utils.js:54-81 | contents in which no `{` has a `}` after it on its line, as in `f"a{b"`, are one run of string text, the unclosed `{` included |
| FString.Build | C210_team1/js/utils.js:51-84 | the builder loop produces exactly the f-string markup: `f`, quote, text and interpolation segments in order, quote |
| FString.ParseReadsBack | C210_team1/js/utils.js:54-81 | the text parts and the braced expressions the loop finds, read back in order, give the whole contents again |
| FString.StripRender | C210_team1/js/utils.js:58-81 | without its tags, the markup of the contents reads as the contents, text and braces alike |
| FString.MarkupShowsSource | C210_team1/js/utils.js:48-88 | without its tags, the f-string markup reads exactly as the source text `f`, quote, contents, quote |
| Patterns.MatchFString | C210_team1/js/utils.js:48 | `\bf(["'])(.*?)\1`: an `f` at a boundary, a quote, and the next same quote on the line, with nothing matched when that quote is absent |
| Patterns.MatchTriple | C210_team1/js/utils.js:93 | a triple quote and the first closing triple of the same kind, across line terminators; none when no closing triple follows |
| Patterns.MatchComment | C210_team1/js/utils.js:99 | a match exactly at `#`, reaching to the first line terminator or the end |
| Patterns.MatchString | C210_team1/js/utils.js:105 | a quote and the next same quote on the line; none when the line has no closing quote |
| Patterns.MatchWordIn | C210_team1/js/utils.js:115 | a match exactly where a whole word from the set begins, ending at its boundary (keyword and control word sets) |
| Patterns.MatchDecorator | C210_team1/js/utils.js:117 | a match exactly at `@` followed by a word character, reaching over the whole word |
| Patterns.MatchCall | C210_team1/js/utils.js:121 | a match exactly where a word not starting with a digit is directly followed by `(` |
| Patterns.CallMatchesRegex | C210_team1/js/utils.js:121 | the call match read as the regex itself: from `i` to `j` exactly when `\b` holds at `i`, the first character is a word character but not a digit, word characters run up to `j` and `(` follows; the backtracking `\w*` has no other place to stop |
| Patterns.MatchClassName | C210_team1/js/utils.js:123 | a match exactly where a word begins with a capital letter, over the whole word |
| Patterns.MatchNumber | C210_team1/js/utils.js:127 | digits at a boundary, with the fraction when one follows and ends at a boundary, otherwise the digits alone when they end at one |
| Patterns.MatchBracket | C210_team1/js/utils.js:129 | a match exactly at one of `(){}[]`, one character long |
| Patterns.MatchPlaceholder | C210_team1/js/utils.js:136 | the prefix, a maximal run of digits and `__` |
| Patterns.MatchAt | C210_team1/js/utils.js:93-129 | every pattern match has at least one character and stays inside the text |
| Patterns.ReplaceAll | C210_team1/js/utils.js:93-108 | the global replace, callback pushing to its table, gives what the left-to-right scan specifies |
| Passes.FStringExtraction | C210_team1/js/utils.js:48-88 | an f-string such as `f"x{y}"` at a word start, with no other quote on the line, is cut out whole: the f-string table gets its markup and the line the placeholder `__FSTRn__` numbered by the table's length |
| Passes.FStringHidesQuotes | C210_team1/js/utils.js:105-108 | once the f-string is cut out, the later string pass matches nothing on the line, so the f-string's quotes are never taken for a plain string |
| Passes.TripleExtraction | C210_team1/js/utils.js:93-96 | a triple-quoted string closed on the line, with no quote on the line outside it, is one table entry, delimiters included, from the opening triple to the first closing triple of the same kind, whatever other quotes its body holds (as `'''it's'''`), and the line gets the placeholder `__STRn__` |
| Passes.StringExtraction | C210_team1/js/utils.js:105-108 | a one-line string literal such as `'a'`, with no other quote on the line, is cut out whole: the table gets the literal, quotes included, and the line the placeholder `__STRn__` numbered by the table's length |
| Passes.CommentExtraction | C210_team1/js/utils.js:99-102 | a comment runs from the first `#` to the end of the line, quotes included, as on `x = "a # b"`; it is pushed to the table and leaves a placeholder with the next index |
| Passes.PlaceholderMatch | C210_team1/js/utils.js:136 | the restoring pattern matches a whole placeholder and reads back its index digits |
| Passes.LookupPlaceholder | C210_team1/js/utils.js:136 | the entry for a placeholder is the table entry when there is one, and `undefined` past the end |
| Passes.PlaceholderAlone | C210_team1/js/utils.js:136 | a placeholder on its own is one whole match of its restoring pattern, and the digits it reads are the entry's index |
| Passes.RestoreEntry | C210_team1/js/utils.js:136-142 | restoring a placeholder writes its entry in a string or comment span, or bare for an f-string |
| Passes.CommentRestoredVerbatim | C210_team1/js/utils.js:136-139 | the string restore passes over a comment placeholder, then the comment comes back exactly as cut out, so a `__STR…__` inside it (as in `# """x"""`) stays |
| Passes.PlaceholderImmune | C210_team1/js/utils.js:115-127 | no keyword, control word, class name or number match begins at or inside a placeholder, whatever text precedes or follows it |
| Passes.CallsSkipPlaceholder | C210_team1/js/utils.js:121 | no call match begins inside a placeholder, nor at one not followed by `(`, whatever precedes it (as `r__STR0__` from `r"a"`) |
| Passes.CallsSeePlaceholder | C210_team1/js/utils.js:121 | a placeholder followed by `(` is matched as a call, whole |
| Passes.CapitalisedKeywords | C210_team1/js/utils.js:115 | the keywords beginning with a capital letter are exactly `None`, `True` and `False` |
| Passes.KeywordGetsClass | C210_team1/js/utils.js:123-125 | the class pass finds a capitalised keyword again inside its keyword span and nests a class span in it, touching nothing else |
| Highlighter.LastTriple | C210_team1/js/utils.js:25-27 | there is a last triple-quote match exactly when there is any, and it is a triple quote |
| Highlighter.LastTripleSplit | C210_team1/js/utils.js:30-32 | before the last triple quote there is one match fewer, from it on exactly one; the prefix has at least three quotes fewer |
| Highlighter.EscapeKeepsTriples | C210_team1/js/utils.js:33 | escaping again keeps the number of triple quotes, so the prefix the recursive call sees opens nothing |
| Highlighter.PhaseBPasses | C210_team1/js/utils.js:40-144 | the fourteen passes of Phase B in order, with the string table threaded from the triple-quote pass to the string pass |
| Highlighter.Escaped | C210_team1/js/utils.js:11-34 | the state left behind is inside a string exactly when it records a delimiter: the close clears both fields, the opening sets both |
| Highlighter.CarryOver | C210_team1/js/utils.js:13-14 | inside a string with no delimiter on the line: the whole escaped line is one string span, and the state is unchanged |
| Highlighter.CarryOverShowsLine | C210_team1/js/utils.js:14 | such a line, without tags and unescaped, reads as the source line |
| Highlighter.Close | C210_team1/js/utils.js:15-21 | inside a string whose delimiter occurs: string text up to and with its first occurrence, then the rest highlighted with a cleared state |
| Highlighter.ClosedState | C210_team1/js/utils.js:19-21 | after the close, the state is inside a string exactly when the rest of the line opens one, and cleared otherwise |
| Highlighter.Open | C210_team1/js/utils.js:26-33 | an odd number of triple quotes: the prefix before the last highlighted afresh, then the rest as one string span |
| Highlighter.OpensAtLast | C210_team1/js/utils.js:27-30 | the state records the three characters at the last triple quote as the delimiter, and they are `"""` or `'''` |
| Highlighter.OpeningSplit | C210_team1/js/utils.js:25-33 | on a line that opens a string, the text from the last triple quote on holds only that one, and the text before it opens nothing |
| Highlighter.PrefixIsSingleLine | C210_team1/js/utils.js:33 | the prefix goes through Phase B with a throwaway fresh state and leaves that state fresh |
| Highlighter.FreshState | C210_team1/js/utils.js:25-34 | from a fresh state, a line leaves a string open exactly when it has an odd number of triple quotes |
| Highlighter.SingleLine | C210_team1/js/utils.js:36-144 | outside a string with an even number of triple quotes: Phase B on the escaped line, the state untouched |
| Highlighter.DepthOne | C210_team1/js/utils.js:11-34 | the call count is 1 exactly on the branches that return without calling again (no delimiter inside a string, or no opening outside one), where the result is the line as one string span or Phase B with the state kept; the closing and opening branches call again |
| Highlighter.DepthBound | C210_team1/js/utils.js:21 | the recursion is at most three calls deep, and at most two outside a string |
| Highlighter.HighlightPython | C210_team1/js/utils.js:3-144 | the method on the state object returns the HTML and leaves the object as the value model says |
| Highlighter.ParserState.constructor | C210_team1/js/render-engine.js:73 | a new state object is outside any string, with no delimiter |
| RenderEngine.BuildScenes | C210_team1/js/render-engine.js:4-21 | one scene per intro item, then one per unit, in order, with missing steps as the empty list |
| RenderEngine.StripCRSpec | C210_team1/js/render-engine.js:54 | no carriage return is left, the newlines are all kept, and code without carriage returns is unchanged |
| RenderEngine.StripCRPieces | C210_team1/js/render-engine.js:54 | the carriage returns and nothing else are removed: the strip distributes over concatenation, turns a lone `\r` into nothing and keeps every other character, so the rest of the code keeps its characters in order |
| RenderEngine.SplitJoin | C210_team1/js/render-engine.js:55 | the pieces join back to the text, there is one more piece than separators, and no piece holds a separator |
| RenderEngine.LineCount | C210_team1/js/render-engine.js:54-55 | a scene has one fragment per line: its newlines plus one |
| RenderEngine.Content | C210_team1/js/render-engine.js:77 | an empty line becomes a single space and any other line stays as it is |
| RenderEngine.SafeTextSpec | C210_team1/js/render-engine.js:82 | `data-text` holds no double quote, and a line without one is written unchanged |
| RenderEngine.SafeTextPieces | C210_team1/js/render-engine.js:82 | only the double quote is escaped: the escape distributes over concatenation, turns `"` into `&quot;` and keeps every other character, in order |
| RenderEngine.GetInsert | C210_team1/js/render-engine.js:63 | after an assignment the key maps to the new item, and other keys are untouched |
| RenderEngine.KeysInsert | C210_team1/js/render-engine.js:63 | assigning an existing key keeps the key order; a new key goes last |
| RenderEngine.BuildAnnotationMap | C210_team1/js/render-engine.js:58-70 | the two nested loops and the override build the scene's annotation map |
| RenderEngine.InsertAllGet | C210_team1/js/render-engine.js:59-67 | last write wins: an anchor maps to the last item added for it, and an anchor no item names is absent |
| RenderEngine.InsertAllKeySet | C210_team1/js/render-engine.js:59-67 | each anchor is a key exactly once, and the keys are exactly the anchors added |
| RenderEngine.InsertAllKeyOrder | C210_team1/js/render-engine.js:59-67 | the keys come in the order of each anchor's first appearance: overwriting does not move a key |
| RenderEngine.OverrideWins | C210_team1/js/render-engine.js:68-70 | with a detail and a non-empty active anchor, the anchor maps to the detail whatever the steps said |
| RenderEngine.FirstAnchor | C210_team1/js/render-engine.js:91 | the first key, in key order, that the line contains; none when it contains none |
| RenderEngine.LineAnnotated | C210_team1/js/render-engine.js:93-108 | trigger class, icon and a phantom row with the line's own index exactly when the first contained key is not empty; the phantom row shows the title and contents of the note stored under that key; the phantom target and the quote-escaped text are always written |
| RenderEngine.States | C210_team1/js/render-engine.js:73-80 | the state before each line, from a fresh one, each the state the previous line left |
| RenderEngine.OpeningLine | C210_team1/js/utils.js:26-29 | a line like `x = """abc` leaves the next line inside a string whose delimiter is the line's last triple quote, `"""` or `'''` |
| RenderEngine.OpenThrough | C210_team1/js/utils.js:13-14 | the string stays open through lines like `def` that lack the delimiter, each shown whole as string text |
| RenderEngine.ClosingLine | C210_team1/js/utils.js:15-21 | a line like `ghi"""` whose rest opens nothing clears the state, so `y = 1` after it is highlighted afresh |
| RenderEngine.StringAcrossLines | C210_team1/js/render-engine.js:73-80 | a string opened on one line, as in `x = """abc`, `def`, `ghi"""`, `y = 1`, keeps its delimiter through the lines without it, each shown whole as string text, and the line that closes it leaves a fresh state for the next |
| RenderEngine.RenderLine | C210_team1/js/render-engine.js:76-108 | the `map` callback highlights with the shared state, annotates, and leaves the state for the next line |
| RenderEngine.FullRenderCode | C210_team1/js/render-engine.js:50-109 | the joined fragments, every line highlighted in order with one state object made for this render, so a render depends on the scene alone |

## Left out

- `main.js` and `visual-core.js` are not part of this model: navigation, the editor and the visual effects around the renderer.
- `renderIntro` (render-engine.js:23-48) is not modelled; it only fills templates for the intro slides.
- `fullRenderCode` writes the joined fragments into a larger `innerHTML` template with the title, the edit-mode class and a textarea (render-engine.js:111-118). The model returns the joined fragments; the DOM write and edit mode are left out.
- RenderEngine.AnnotationMapOf keeps every key in insertion order. JavaScript puts integer-like keys such as `"42"` first, in numeric order. An anchor named `__proto__` would not become a key at all. Both are left out.
- Anchors, titles, unit ids and contents are modelled as strings. A missing `anchor` would become the key `undefined`; that case is left out.
- Strings are sequences of characters. JavaScript counts UTF-16 code units, so `length`, `indexOf` and `.` treat characters outside the Basic Multilingual Plane differently.
- Highlighter.Highlight: requires a state that is inside a string exactly when it has a delimiter. With `inQuote` true and `quoteType` null the source searches the line for the text `null`: on a line without it, the whole line becomes one string span and the state stays as it was; on a line with it, reading `null.length` throws. Neither behaviour is modelled. Every state the source itself creates meets the precondition: the default argument, the close and the throwaway state (whose missing `quoteType` reads as no delimiter) have neither, the opening sets both.
- Concrete inputs are stated as general lemmas rather than evaluated. The four-line example `x = """abc`, `def`, `ghi"""`, `y = 1` is `RenderEngine.StringAcrossLines`, stated for any such lines. `x = "a # b"` is `Passes.CommentExtraction`. `# """x"""` is `Passes.CommentRestoredVerbatim`.
- Phase B as a whole is characterised pass by pass, not by one lemma about its output. No lemma says that the output without tags reads as the line, because that is false in the cases listed above.
