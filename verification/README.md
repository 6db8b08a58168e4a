# Playlunky entity sheet planner and shader merger, in Dafny

This project models two deterministic transformations in the Playlunky mod
loader, and proves properties of each.

**The entity virtual sprite-sheet planner** is `EntityDataExtractor` in
`source/playlunky/mod/entity_data_extraction.cpp`.
- `PreloadEntityMappings` takes a table of `EntityMappingInfo` rows. For
  each row it lays out one virtual sheet, with one band per named entity,
  top to bottom:
  - a static entity contributes one tile;
  - an animated entity contributes its de-duplicated animation tiles, packed
    into a near-square grid.
- Every tile becomes a `TileMapping`. Its source rectangle is on the virtual
  sheet and its target rectangle is on the game's atlas.
- Below the bands the planner records `SourceHeight` and reserves
  `AdditionalHeight` pixels.
- `GetEntitySourceSheet` returns the sheet of the first mapping filed under
  a path.
- `GetAdditionalMapping` moves a mod-supplied tile into the reserved region.

In `entity_sheet.dfy`:
- the extractor is a class whose `Mappings` field the planner appends to;
- the specification functions `Placed` (one entity's band), `PlacedAll` (a
  row's bands in order) and `Plan` (one row's mapping) state what planning
  computes;
- the planner's methods mirror the source's loops, and each is proved equal
  to those functions;
- lemmas prove the layout properties of those functions: bounds, disjoint
  bands and the height identity (`SheetInvariants`);
- the lookups are functions over the stored mappings.

**The shader overlay merger** is `MergeShaders` in
`source/playlunky/mod/shader_merge.cpp`.
- Each overlay is read one character at a time by a small state machine:
  - it tracks the comment state, the scope depth and the `#extends` flag;
  - it keeps three text buffers.
- It files every top-level `{...}` block of the overlay in one of three ways:
  - as preamble text;
  - as a replacement for a function of the original shader;
  - as an extension of one.
- Two splicers then edit the original text:
  - a replacement swaps a function's brace-matched body and inserts its
    preamble in front of the declaration;
  - an extension puts a `return_value` local and one early-return call per
    extension right after the function's `{`, and puts the renamed extension
    definitions at the newline before the function.

The files are laid out as follows:
- `shader_scan.dfy` holds the tokenizer.
  - The specification functions `Step` (one character outside comments),
    `Run`, `OverlayScan` and `ScanAll` state what the scan files.
  - Its methods follow the source branch by branch, and each is proved equal
    to those functions.
  - Ghost bookkeeping ties each record to the overlay text it was cut from,
    and proves the records valid.
- `shader_splice.dfy` holds the brace matcher, both splicers and `Merge`.
  Each splicer is a method proved equal to a specification function. Lemmas
  state the layout of that function's result and when it leaves the text
  unchanged.
- `text.dfy` holds the string operations the merger relies on: `find`,
  `rfind`, `substr`, `insert`, `replace`, trim and split.
- `wrappers.dfy` holds `Option`.

## Where the code departs from its evident intent

The model follows the code in each of these places.
- **Overlay-private blocks can be lost.** An overlay block whose line is not
  in the original shader goes into the pending preamble. That preamble only
  leaves the tokenizer attached to a replacement or an extension filed later
  from the same overlay (shader_merge.cpp:158, :176, :190). With no such
  record it is dropped, so the merged text need not contain that block.
  `PrivateBlockDropped` shows this for the overlay `a{}` against the
  original `x`.
- **Replacement is not idempotent in general.** Each pass re-inserts the
  preamble in front of the declaration (shader_merge.cpp:263). Idempotence
  holds when the preamble is empty; `ReplacedIdempotent` proves it then.
  `ReplacementRepeatsPreamble` shows a preamble inserted twice.
- **An extension's preamble comes after its definition.** The preamble is
  inserted at the newline first, and the renamed definition is inserted at
  the same position afterwards (shader_merge.cpp:364-365). So the definition
  comes first and its preamble follows it.
- **Later extensions come first.** Because every extension inserts at the
  same newline, the definition of extension i+1 lands in front of that of
  extension i.

## Model

| member | source | states |
|---|---|---|
| Text.Find | source/playlunky/mod/shader_merge.cpp:234 | `std::string::find` from a position: -1 when the pattern occurs nowhere from there, otherwise an occurrence with none before it |
| Text.FindIsFirst | source/playlunky/mod/shader_merge.cpp:237 | Find returns p exactly when p is the first occurrence at or after the start, or p is -1 and there is no occurrence |
| Text.FindFindsFactor | source/playlunky/mod/shader_merge.cpp:31-34 | the original-shader membership test (find from 0 is not npos) holds exactly when the line is a substring |
| Text.RFind | source/playlunky/mod/shader_merge.cpp:306 | `std::string::rfind` of a char: the last occurrence at or before pos, or -1 when there is none |
| Text.SubstrTo | source/playlunky/mod/shader_merge.cpp:167 | `substr(pos, end - pos)`: the result is the text that starts at pos, with length end - pos when end is in range and not before pos, and otherwise everything to the end |
| Text.Insert | source/playlunky/mod/shader_merge.cpp:263 | `std::string::insert`: the text before pos is kept, the inserted text sits at pos, and the rest follows shifted |
| Text.InsertTwice | source/playlunky/mod/shader_merge.cpp:364-365 | two inserts at the same position leave the second one's text in front of the first one's |
| Text.InsertInFront | source/playlunky/mod/shader_merge.cpp:353-365 | inserting at the newline after inserting further on gives the expected concatenation of five pieces |
| Text.InsertBeforeSwap | source/playlunky/mod/shader_merge.cpp:262-263 | a body swap followed by an insert in front of it gives the concatenation of the original pieces |
| Text.ReplaceFirstAtFind | source/playlunky/mod/shader_merge.cpp:345-348 | replacing the pattern's length at its first find swaps exactly the first occurrence of the pattern |
| Text.Trim | source/playlunky/mod/shader_merge.cpp:156 | `algo::trim`: a substring with no whitespace at either end, empty exactly when the input is all whitespace |
| Text.TrimLeftFacts | source/playlunky/mod/shader_merge.cpp:156 | removing leading whitespace leaves a suffix of the input that starts with a non-space, and only whitespace was removed |
| Text.TrimRightFacts | source/playlunky/mod/shader_merge.cpp:156 | removing trailing whitespace leaves a prefix of the input that ends with a non-space, and only whitespace was removed |
| Text.TrimFacts | source/playlunky/mod/shader_merge.cpp:167 | trimming both ends gives a substring of the input with no whitespace at either end, empty exactly when the input is all whitespace |
| Text.Split | source/playlunky/mod/shader_merge.cpp:323-325 | `algo::split` and `Tokenize`: every token is non-empty and holds no separator |
| Text.SplitJoin | source/playlunky/mod/shader_merge.cpp:323-325 | splitting tokens joined by the separator gives the tokens back, when they are non-empty and hold no separator |
| Text.NatToString | source/playlunky/mod/shader_merge.cpp:344 | `std::to_string` of an index: a non-empty string of decimal digits |
| Text.NatToStringValue | source/playlunky/mod/shader_merge.cpp:344 | the decimal value of the digits is the index itself |
| Text.NatToStringInjective | source/playlunky/mod/shader_merge.cpp:344 | different indices give different digit strings |
| Text.OccursAtChar | source/playlunky/mod/shader_merge.cpp:237 | a one-char pattern occurs at p exactly when p is in range and holds that char |
| ShaderScan.Visible | source/playlunky/mod/shader_merge.cpp:104-135 | the characters outside comments are never more than the characters read; what they are is stated by the comment lemmas below |
| ShaderScan.Decomment | source/playlunky/mod/shader_merge.cpp:104-135 | removing comments never lengthens an overlay; NoSlashNoComment, LineCommentSwallowsNewline and BlockCommentDropped state what it keeps |
| ShaderScan.NoSlashNoComment | source/playlunky/mod/shader_merge.cpp:104-118 | text with no `/` reaches the tokenizer unchanged |
| ShaderScan.LineCommentTail | source/playlunky/mod/shader_merge.cpp:119-126 | inside a line comment everything up to and including the next newline is skipped |
| ShaderScan.LineCommentSwallowsNewline | source/playlunky/mod/shader_merge.cpp:106-126 | a `//` comment reaches no buffer, and neither does the newline that ends it |
| ShaderScan.BlockCommentTail | source/playlunky/mod/shader_merge.cpp:127-135 | inside a block comment everything up to and including the next `*/` is skipped |
| ShaderScan.BlockCommentDropped | source/playlunky/mod/shader_merge.cpp:112-135 | a `/*...*/` comment reaches no buffer |
| ShaderScan.NetConcat | source/playlunky/mod/shader_merge.cpp:137-151 | the brace balance of a concatenation is the sum of the parts' balances |
| ShaderScan.NetAppend | source/playlunky/mod/shader_merge.cpp:137-151 | reading one more char changes the balance by that char's brace delta |
| ShaderScan.OpenBlockStart | source/playlunky/mod/shader_merge.cpp:137-143 | a body that starts with `{` is an open block at depth 1 |
| ShaderScan.OpenBlockGrow | source/playlunky/mod/shader_merge.cpp:224-227 | appending a char to an open body keeps it an open block whose depth follows the brace count |
| ShaderScan.StopIndex | source/playlunky/mod/shader_merge.cpp:145-151 | the index where an overlay's scan stops is either the end or a `}` |
| ShaderScan.StopIndexIsStrayBrace | source/playlunky/mod/shader_merge.cpp:145-151 | scanning stops at the first `}` seen at depth 0: the depth stays non-negative until then and is 0 there |
| ShaderScan.StopIndexStep | source/playlunky/mod/shader_merge.cpp:100-151 | every char other than a depth-0 `}` moves the scan on, and the stop point is unchanged |
| ShaderScan.Reached | source/playlunky/mod/shader_merge.cpp:100-151 | the part of an overlay the tokenizer acts on is no longer than the overlay; StopIndexIsStrayBrace states where it ends |
| ShaderScan.StructTestIsFindAtZero | source/playlunky/mod/shader_merge.cpp:156 | the struct test holds exactly when the trimmed line's first occurrence of `struct` is at index 0 |
| ShaderScan.ExtensionName | source/playlunky/mod/shader_merge.cpp:163-167 | an extension gets a name exactly when its line holds both a space and a `(`, and the name is a substring of the line |
| ShaderScan.ExtensionNameOf | source/playlunky/mod/shader_merge.cpp:163-167 | a line `type name(rest`, with no space or `(` in the type and a trimmed name with neither, gives exactly that name |
| ShaderScan.IndexOfName | source/playlunky/mod/shader_merge.cpp:168 | `algo::find` by name: the first entry with that name, or one past the end when there is none |
| ShaderScan.FileExtension | source/playlunky/mod/shader_merge.cpp:168-178 | an extension is appended to the first entry of its name, or to a new entry at the end, and every other entry is unchanged |
| ShaderScan.ExtendedValidFile | source/playlunky/mod/shader_merge.cpp:168-178 | filing a valid extension keeps every entry valid and non-empty |
| ShaderScan.ExtensionsValidAppend | source/playlunky/mod/shader_merge.cpp:175-178 | appending a valid extension to a valid entry keeps it valid |
| ShaderScan.DistinctNamesFile | source/playlunky/mod/shader_merge.cpp:168-174 | filing an extension never creates a second entry with the same name |
| ShaderScan.NewExtensionsFromFile | source/playlunky/mod/shader_merge.cpp:168-178 | after filing, entries only grew at the end, and every new extension was cut from the overlay text read |
| ShaderScan.ModdedValidAppend | source/playlunky/mod/shader_merge.cpp:186-192 | adding a valid replacement keeps all replacements valid |
| ShaderScan.DistinctDeclarationsAppend | source/playlunky/mod/shader_merge.cpp:186 | a replacement whose declaration is not yet recorded keeps declarations unique |
| ShaderScan.ModdedFromAppend | source/playlunky/mod/shader_merge.cpp:189-192 | earlier replacements are kept, and the new one was cut from the overlay text read |
| ShaderScan.ProgressStart | source/playlunky/mod/shader_merge.cpp:95-99 | before an overlay is read, the scan invariant holds on the records so far |
| ShaderScan.ProgressReplacement | source/playlunky/mod/shader_merge.cpp:186-194 | recording a replacement preserves the scan invariant |
| ShaderScan.ProgressExtension | source/playlunky/mod/shader_merge.cpp:160-184 | filing an extension preserves the scan invariant |
| ShaderScan.RecordHoldsBrace | source/playlunky/mod/shader_merge.cpp:162 | a record cut from some text whose body is a whole block means that text holds a `}` |
| ShaderScan.FiledOnlyWithBrace | source/playlunky/mod/shader_merge.cpp:154-199 | an overlay adds records only when the part read holds a `}` |
| ShaderScan.CloseBlock | source/playlunky/mod/shader_merge.cpp:154-192 | when the top-level block closes, its line and body are a substring of the overlay and the body is a balanced block |
| ShaderScan.Classify | source/playlunky/mod/shader_merge.cpp:156-199 | the four outcomes as iff conditions. Preamble: struct, or not an extension and not in the original. Extension: not struct and `#extends` was seen. Replacement: otherwise, if the declaration is not yet recorded. Duplicate: otherwise |
| ShaderScan.StoreChar | source/playlunky/mod/shader_merge.cpp:217-227 | the new buffers are exactly Stored: at depth 0 a char goes to the line unless it is leading whitespace, inside a block it goes to the body, nothing else changes; the framing invariant is kept |
| ShaderScan.ClosedBlock | source/playlunky/mod/shader_merge.cpp:154-192 | the body closed with its `}` is a balanced block, and the record was cut from the overlay |
| ShaderScan.FileReplacement | source/playlunky/mod/shader_merge.cpp:186-194 | a replacement is recorded with the pending preamble, the line and the body plus `}`, and the scan invariant is kept |
| ShaderScan.FileExtensionBlock | source/playlunky/mod/shader_merge.cpp:160-184 | an extension is filed exactly when its line yields a name, and only then are the entries changed |
| ShaderScan.CloseTopBlock | source/playlunky/mod/shader_merge.cpp:154-199 | closing a top-level block for each classification: the preamble grows or resets, the records change only as classified, and the line, body and flag are cleared |
| ShaderScan.CloseBrace | source/playlunky/mod/shader_merge.cpp:145-201 | the new buffers and records are exactly Closed: a nested `}` joins the body; at depth 1 the block is filed as classified, and a brace the filing does not consume starts the next line; the depth drops by one and the framing invariant is kept |
| ShaderScan.Consume | source/playlunky/mod/shader_merge.cpp:137-227 | the new buffers are exactly Advance: a stray `}` at depth 0 stops the scan and changes nothing; a `{` opens a block; a top-level newline sets the extension flag exactly when the line was `#extends` and otherwise flushes the line into the preamble |
| ShaderScan.PreparedStaged | source/playlunky/mod/shader_merge.cpp:137-215 | raising the depth for `{` or flushing the line at a top-level newline keeps the buffers framed, with the block the char joins still open |
| ShaderScan.ReadCode | source/playlunky/mod/shader_merge.cpp:137-227 | one step of the loop is Step: it stops exactly at a depth-0 `}`, and it keeps the scan invariant and the stop index |
| ShaderScan.ReadNext | source/playlunky/mod/shader_merge.cpp:100-228 | from the state after the first n comment-free chars, one step ends in the state after n + 1 of them, or stops exactly at the stray brace |
| ShaderScan.VisibleChar | source/playlunky/mod/shader_merge.cpp:100-118 | a char that does not open a comment is passed to the tokenizer as the next visible char |
| ShaderScan.CommentStep | source/playlunky/mod/shader_merge.cpp:102-135 | `//` and `/*` outside a comment are read in one go and open a comment; a newline ends a line comment and `*/` a block comment. A char is code exactly when it is outside comments and opens none, and skipping leaves the comment-free remainder unchanged |
| ShaderScan.ScanOverlay | source/playlunky/mod/shader_merge.cpp:64-228 | the records are those of OverlayScan, which runs Step over the comment-free text up to the stray brace; earlier records are kept, every new record is cut from the part read, and an overlay with no `}` there records nothing |
| ShaderScan.FromLongerPrefix | source/playlunky/mod/shader_merge.cpp:53 | a record from an earlier overlay is still from an overlay when more overlays are read |
| ShaderScan.FromMoreOverlays | source/playlunky/mod/shader_merge.cpp:53 | all records come from the overlays read so far, after one more overlay too |
| ShaderScan.OriginsAfterScan | source/playlunky/mod/shader_merge.cpp:53-230 | after scanning the next overlay, every record comes from one of the overlays read |
| ShaderScan.ScanOverlays | source/playlunky/mod/shader_merge.cpp:53-230 | the records are those of ScanAll over the overlays in order. They are valid: replacements have unique declarations found in the original, and extension entries have unique names and balanced bodies. Every record comes from some overlay; with no blocks, nothing is recorded |
| ShaderSplice.DepthIsNet | source/playlunky/mod/shader_merge.cpp:240-259 | the brace matcher's running depth is the brace balance of the text read from the `{` |
| ShaderSplice.CloseFrom | source/playlunky/mod/shader_merge.cpp:243-258 | the matcher's loop returns -1 (npos) or an index not before where it resumed |
| ShaderSplice.MatchingClose | source/playlunky/mod/shader_merge.cpp:240-259 | the match of a brace is -1 or lies after the brace |
| ShaderSplice.CloseFromFirst | source/playlunky/mod/shader_merge.cpp:243-258 | the loop stops at the first index where the depth returns to 0, or finds none |
| ShaderSplice.MatchingCloseSpec | source/playlunky/mod/shader_merge.cpp:240-259 | the matching `}` is the first index after the `{` where the depth returns to 0; -1 when the depth never does |
| ShaderSplice.MatchingCloseFirst | source/playlunky/mod/shader_merge.cpp:240-259 | any `}` that first closes the brace is the one the matcher returns |
| ShaderSplice.MatchingCloseOfBlock | source/playlunky/mod/shader_merge.cpp:240-259 | a balanced block placed at the brace is matched at its own last `}` |
| ShaderSplice.FindClosingBrace | source/playlunky/mod/shader_merge.cpp:240-259 | the loop with a depth counter computes the matching close |
| ShaderSplice.ReplacementSpan | source/playlunky/mod/shader_merge.cpp:234-260 | a found span has the declaration before the `{` before its matching `}`, all inside the text |
| ShaderSplice.ReplacementSpanIsSpan | source/playlunky/mod/shader_merge.cpp:234-260 | a found span is the first declaration, the first `{` after it and that brace's matching `}` |
| ShaderSplice.ReplacementSpanFound | source/playlunky/mod/shader_merge.cpp:234-260 | the span is found exactly when such a first declaration, brace and match exist, and then it is that one |
| ShaderSplice.ReplacedLayout | source/playlunky/mod/shader_merge.cpp:262-263 | the preamble goes in front of the declaration, `[open, close]` is replaced by the body, and all other text is unchanged |
| ShaderSplice.ReplacedWithoutSpan | source/playlunky/mod/shader_merge.cpp:234-273 | with no declaration, brace or match, the text is unchanged |
| ShaderSplice.SpanAfterSwap | source/playlunky/mod/shader_merge.cpp:262 | after the body swap, the same declaration and brace are found, and the match closes the new body |
| ShaderSplice.SpanKept | source/playlunky/mod/shader_merge.cpp:234-262 | text that agrees up to the brace and holds a balanced body there yields the span of that body |
| ShaderSplice.ReplacedIdempotent | source/playlunky/mod/shader_merge.cpp:232-264 | with an empty preamble and a balanced body, replacing twice gives the same text as replacing once |
| ShaderSplice.ReplacementRepeatsPreamble | source/playlunky/mod/shader_merge.cpp:262-263 | with preamble `p`, replacing `f` in `f{}` gives `pf{}`, and replacing again gives `ppf{}` |
| ShaderSplice.LocateSpan | source/playlunky/mod/shader_merge.cpp:234-260 | the located span is the specified one |
| ShaderSplice.ReplaceFunction | source/playlunky/mod/shader_merge.cpp:234-273 | one replacement splice computes the specified replaced text |
| ShaderSplice.SpliceReplacements | source/playlunky/mod/shader_merge.cpp:232-274 | the replacements are applied in recorded order, each to the text left by the previous ones |
| ShaderSplice.ExtensionSite | source/playlunky/mod/shader_merge.cpp:278-310 | a found site has the newline before the name before the `{`, all inside the text |
| ShaderSplice.ExtensionSiteFound | source/playlunky/mod/shader_merge.cpp:278-310 | the site is the first occurrence of the name, the first `{` after it (which has a match), and the last newline at or before the name |
| ShaderSplice.ReturnType | source/playlunky/mod/shader_merge.cpp:312 | the return type has no whitespace at either end and lies between the newline and the name; it is empty exactly when that stretch is all whitespace |
| ShaderSplice.ArgumentShape | source/playlunky/mod/shader_merge.cpp:325-330 | a parameter with words contributes its last word, which holds no space, followed by `, `; otherwise nothing |
| ShaderSplice.ParameterText | source/playlunky/mod/shader_merge.cpp:315-321 | none exactly when there is no `(` after the name or no `)` before the brace; otherwise the text that starts at that first `(`, running to the `)` or, when the count wraps, to the end |
| ShaderSplice.ExtNamesDistinct | source/playlunky/mod/shader_merge.cpp:344 | the names `F_ext<i>` of different extensions differ |
| ShaderSplice.RenamedFacts | source/playlunky/mod/shader_merge.cpp:358-362 | the renamed declaration differs from the original only where the name first occurs, which now holds `F_ext<i>`, an extension of the name |
| ShaderSplice.ExtendedLayout | source/playlunky/mod/shader_merge.cpp:353-366 | the definitions go at the newline, then the original text up to the `{`, then the code, then the rest of the original unchanged |
| ShaderSplice.ExtendedChangesIffSite | source/playlunky/mod/shader_merge.cpp:276-379 | an extension splice changes the text exactly when the site is found |
| ShaderSplice.CodePrefix | source/playlunky/mod/shader_merge.cpp:339-351 | the code for fewer extensions is a prefix of the code for more |
| ShaderSplice.CallLineInOrder | source/playlunky/mod/shader_merge.cpp:339-351 | the call line of extension i follows the code for extensions before i, so calls are in recorded order |
| ShaderSplice.DefinitionsStep | source/playlunky/mod/shader_merge.cpp:354-366 | inserting the next definition at the newline puts it in front of those already inserted |
| ShaderSplice.DefinitionAt | source/playlunky/mod/shader_merge.cpp:354-366 | each extension's definition occurs in the inserted text at its computed offset |
| ShaderSplice.DefinitionsLaterFirst | source/playlunky/mod/shader_merge.cpp:354-366 | a later extension's definition ends before an earlier one's begins |
| ShaderSplice.DefinitionsGrow | source/playlunky/mod/shader_merge.cpp:354-366 | the inserted definitions only grow as more extensions are placed |
| ShaderSplice.LocateSite | source/playlunky/mod/shader_merge.cpp:278-310 | the located site is the specified one |
| ShaderSplice.JoinArguments | source/playlunky/mod/shader_merge.cpp:322-332 | the loop joins the arguments of all parameters in order |
| ShaderSplice.BuildArgumentList | source/playlunky/mod/shader_merge.cpp:313-337 | the argument list is the specified one, empty when a parenthesis is missing |
| ShaderSplice.BuildCode | source/playlunky/mod/shader_merge.cpp:339-351 | the loop builds the local declaration followed by one call per extension |
| ShaderSplice.InsertDefinitions | source/playlunky/mod/shader_merge.cpp:354-366 | inserting each definition at the newline gives the later-first definitions text inserted there |
| ShaderSplice.SpliceSite | source/playlunky/mod/shader_merge.cpp:339-366 | at a found site, the code goes after the `{` and the definitions at the newline |
| ShaderSplice.ExtendFunction | source/playlunky/mod/shader_merge.cpp:276-379 | one extension splice computes the specified extended text |
| ShaderSplice.SpliceExtensions | source/playlunky/mod/shader_merge.cpp:276-379 | the extension entries are applied in recorded order |
| ShaderSplice.ValidExtensionsRenamable | source/playlunky/mod/shader_merge.cpp:345-348 | every filed extension's line names its function, so the rename never fails |
| ShaderSplice.PrivateBlockDropped | source/playlunky/mod/shader_merge.cpp:153-199 | the overlay `a{}` holds a block, yet against the original `x` it records nothing, and the merged text is `x` |
| ShaderSplice.Merge | source/playlunky/mod/shader_merge.cpp:27-379 | fails exactly when the original is empty; with no blocks, the result is the original byte for byte. Otherwise it is the extensions of ScanAll spliced into the original with the replacements of ScanAll, and those records are valid and all come from the overlays |
| EntitySheet.AtlasTile | source/playlunky/mod/entity_data_extraction.cpp:246-261 | an atlas tile is exactly one tile wide and one tile high |
| EntitySheet.CellsDisjoint | source/playlunky/mod/entity_data_extraction.cpp:287-299 | two different positions of a band get non-overlapping cells |
| EntitySheet.CellsApart | source/playlunky/mod/entity_data_extraction.cpp:295-300 | cells in different columns or rows do not overlap |
| EntitySheet.CellInside | source/playlunky/mod/entity_data_extraction.cpp:287-299 | each position of a `cols` by `rows` grid lies inside the band's width and height |
| EntitySheet.TileRun | source/playlunky/mod/entity_data_extraction.cpp:271-273 | one animation's tiles are `first + i` for i below NumTiles, and none when NumTiles is not positive |
| EntitySheet.IndexOf | source/playlunky/mod/entity_data_extraction.cpp:274 | the position of an element's first occurrence |
| EntitySheet.IndexOfExtend | source/playlunky/mod/entity_data_extraction.cpp:274-275 | appending to a list does not move an element's first occurrence |
| EntitySheet.DedupElements | source/playlunky/mod/entity_data_extraction.cpp:269-278 | the de-duplicated list has no duplicates and the same elements as the input |
| EntitySheet.DedupFirstSeenOrder | source/playlunky/mod/entity_data_extraction.cpp:269-278 | the de-duplicated list keeps the order in which elements are first seen |
| EntitySheet.AnimationTilesMembers | source/playlunky/mod/entity_data_extraction.cpp:270-277 | the collected tiles are exactly the tiles of the animations' runs |
| EntitySheet.AddRun | source/playlunky/mod/entity_data_extraction.cpp:271-277 | the inner loop extends the de-duplicated list by one animation's run |
| EntitySheet.UniqueTileIndices | source/playlunky/mod/entity_data_extraction.cpp:269-278 | the unique list has no duplicates, holds every `first + i` of every animation and nothing else, in first-seen order over ascending ids |
| EntitySheet.CeilSqrt | source/playlunky/mod/entity_data_extraction.cpp:280-281 | the least w with `w*w >= n` |
| EntitySheet.CeilDiv | source/playlunky/mod/entity_data_extraction.cpp:282-283 | the least r with `r*d >= n` |
| EntitySheet.GrownSize | source/playlunky/mod/entity_data_extraction.cpp:310-311 | the width becomes the larger of the old width and the band width; the height grows by rows times the tile height |
| EntitySheet.PackTiles | source/playlunky/mod/entity_data_extraction.cpp:280-308 | n unique tiles give n mappings, the k-th at column `k mod cols`, row `k div cols` below the band top, mapped to unique[k]; `cols*rows >= n` |
| EntitySheet.UniqueTiles | source/playlunky/mod/entity_data_extraction.cpp:269-278 | an animated entity has at least one unique tile, with no duplicates and no negative index |
| EntitySheet.PackedBandLaysOut | source/playlunky/mod/entity_data_extraction.cpp:285-311 | a packed band's source rectangles lie inside the band and are pairwise disjoint |
| EntitySheet.PlaceEntity | source/playlunky/mod/entity_data_extraction.cpp:230-320 | an unknown entity or texture adds nothing and keeps the size. A static entity adds its single mapping and grows the sheet by one tile. An animated entity appends its packed band and grows the size as packed. Either way, the new rectangles are disjoint and inside the new band, and the result is the specified placement |
| EntitySheet.PlaceStatic | source/playlunky/mod/entity_data_extraction.cpp:243-266 | the source is `(0, H, TW, H+TH)`, the target is atlas tile `ty*NW+tx`, the width becomes `max(W, TW)` and the height grows by TH |
| EntitySheet.PlaceAnimated | source/playlunky/mod/entity_data_extraction.cpp:268-311 | keeps the earlier mappings and appends one packed mapping per unique tile; the size grows by the packed grid |
| EntitySheet.PackedBandAppended | source/playlunky/mod/entity_data_extraction.cpp:285-311 | appending a packed band keeps earlier tiles, with the new ones inside the band and disjoint |
| EntitySheet.AppendedBand | source/playlunky/mod/entity_data_extraction.cpp:250-311 | appending rectangles that are inside a band and disjoint gives an appended band |
| EntitySheet.StackBand | source/playlunky/mod/entity_data_extraction.cpp:230-321 | a band below earlier bands keeps all rectangles inside the sheet and pairwise disjoint |
| EntitySheet.PackedBandIsBand | source/playlunky/mod/entity_data_extraction.cpp:285-308 | the packing loop's result is determined: a band is packed exactly when it is the band of the unique tiles |
| EntitySheet.PlacedStaticBand | source/playlunky/mod/entity_data_extraction.cpp:250-266 | a static entity's tile keeps the earlier tiles and lies in a new band one tile high, inside the new width |
| EntitySheet.PlacedAnimatedBand | source/playlunky/mod/entity_data_extraction.cpp:285-311 | an animated entity's grid keeps the earlier tiles and lies in a new band of its rows, inside the new width, without overlaps |
| EntitySheet.PlacedBand | source/playlunky/mod/entity_data_extraction.cpp:230-320 | the band of one name never shrinks the sheet and lies below the earlier tiles, inside the new width, without overlaps; a name that does not resolve changes nothing |
| EntitySheet.PlacedAllLaidOut | source/playlunky/mod/entity_data_extraction.cpp:227-321 | stacking the bands of all names from an empty sheet keeps every rectangle in `[0, Width) x [InitialHeight, Height)` and pairwise disjoint; if no name resolves, the sheet stays empty with width 0 |
| EntitySheet.PlanInvariants | source/playlunky/mod/entity_data_extraction.cpp:226-334 | a planned mapping is filed under its row's path; its height is SourceHeight plus AdditionalHeight, with SourceHeight at least InitialHeight; its rectangles lie in `[0, Width) x [InitialHeight, SourceHeight)` and are disjoint. A row with no resolvable name gives an empty sheet of width 0 and height InitialHeight + AdditionalHeight |
| EntitySheet.PlanSheet | source/playlunky/mod/entity_data_extraction.cpp:227-333 | the planning loop over one row's names computes the planned mapping: each name's band in order, then the reserved region. The result satisfies the sheet invariants |
| EntitySheet.FirstMatchUnique | source/playlunky/mod/entity_data_extraction.cpp:338 | a path has at most one first match |
| EntitySheet.FindMappingFrom | source/playlunky/mod/entity_data_extraction.cpp:338 | `algo::find`: none exactly when no mapping has the path, otherwise the first one that has it |
| EntitySheet.EntityDataExtractor.constructor | source/playlunky/mod/entity_data_extraction.cpp:325 | the extractor starts with no mappings |
| EntitySheet.EntityDataExtractor.PreloadEntityMappings | source/playlunky/mod/entity_data_extraction.cpp:226-334 | earlier mappings are kept, and the planned mapping of each table row is appended in table order. Each satisfies its row's sheet invariants: path, height identity, bounds and disjointness |
| EntitySheet.EntityDataExtractor.GetEntitySourceSheet | source/playlunky/mod/entity_data_extraction.cpp:337-343 | the sheet of the first mapping with the path; none exactly when no mapping has it |
| EntitySheet.EntityDataExtractor.GetAdditionalMapping | source/playlunky/mod/entity_data_extraction.cpp:344-362 | for the first match: the stored size and one mapping whose source is the given tile moved down by SourceHeight, with the target unchanged. None exactly when the path is unknown |
| EntitySheet.StaticEntityScenario | source/playlunky/mod/entity_data_extraction.cpp:243-266 | a worked example: cell (3, 1) of an 8-wide atlas of 128-pixel tiles offset by (16, 32) gives source (0, 0, 128, 128), target (400, 160, 528, 288), size (128, 228) and SourceHeight 128 |
| EntitySheet.AdditionalTileInReservedBand | source/playlunky/mod/entity_data_extraction.cpp:323-347 | a tile inside `[0, Width) x [0, AdditionalHeight)`, once moved, lies in the reserved region and overlaps no planned tile |

## Left out

- Loading the catalogue from the embedded JSON resources and through Win32
  is left out: `from_json`, `FindResource`/`LoadResource`/`LockResource`
  and `OnScopeExit` (entity_data_extraction.cpp:37-104). These are foreign
  calls. The entity and texture catalogues are map parameters instead.
- The literal rows of the mapping table (entity_data_extraction.cpp:112-224)
  are not modelled. The table is a parameter of `PreloadEntityMappings`.
- File and VFS access in the merger is left out: reading the original and
  the overlays, `GetAllFilePaths`, creating the directory and writing the
  result (shader_merge.cpp:17-25, :36, :55-62, :381-395). `Merge` takes the
  original and the overlays as strings and returns the merged text.
  - It returns none where the source returns false for an empty original.
  - The outcome of the final write is not modelled.
  - The order in which the VFS lists the overlays is the order of the
    `overlays` sequence.
- An overlay file that cannot be read is read as empty text, as in the
  source. An empty overlay records nothing, as proved for any overlay
  without a `}`.
- `LogError` diagnostics (entity_data_extraction.cpp:315, :319, :341, :360
  and shader_merge.cpp:149, :269-272, :374-377) have no effect in the model.
- `algo::trim`, `algo::split<' '>`, `Tokenize<','>`, `algo::find`,
  `algo::contains` and `fmt::format` are not part of this model. They are
  modelled by their evident behaviour:
  - trim removes leading and trailing whitespace;
  - split breaks the text at the separator and drops empty tokens;
  - find and contains are a linear first-match search;
  - format concatenates.
  No more is claimed about how the real helpers treat empty tokens.
- Text.SubstrTo: a count that wraps (end before pos) takes everything to
  the end. That is what `substr` does with a huge count; the exception
  `substr` throws for a start past the end is excluded by its requires,
  which every caller meets.
- EntitySheet.CeilSqrt: `std::ceil(std::sqrt(float(n)))` is modelled as the
  exact integer ceiling square root. They agree for every realistic tile
  count.
- EntitySheet.PlaceEntity:
  - an animated entity is required to have at least one tile, because with
    none the source divides by a zero width;
  - tile indices and TileX/TileY are required to be non-negative, and
    NumTilesWidth positive, because the source mixes signed and unsigned
    `%` and `/` there.
- EntitySheet.PlanSheet: 32-bit unsigned and signed wrap-around of widths,
  heights and tile indices is not modelled. All arithmetic is on unbounded
  integers.
- ShaderSplice.ExtendFunction requires every extension's line to name the
  extended function, because otherwise the source's `replace(npos, …)`
  throws `out_of_range`. `ValidExtensionsRenamable` proves this holds for
  every filed extension, so `Merge` needs no such requirement.
- The per-extension declaration at shader_merge.cpp:344-348 is computed and
  never used. The model leaves it out; the same renaming at :358-362 is
  modelled.
- ShaderSplice.MatchingClose is defined for any starting index. The source
  always starts it at a `{`, and `MatchingCloseSpec` describes that case.
- `std::string` values that were moved from (shader_merge.cpp:176-178,
  :190-192) are modelled as cleared. That is what the library
  implementations do, though the standard leaves the state unspecified.
- An extended function keeps its original output when every extension
  returns false. That law is about running HLSL, which is not modelled.
  `ExtendedLayout` and `CallLineInOrder` state its text-level counterpart:
  the original body follows the calls unchanged.
- `struct` blocks of an overlay are only classified, as the source does.
  Their meaning as HLSL is not modelled.
