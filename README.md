# hfs-nfd in Dafny

A model of the `hfs_nfd` crate, which converts text between ordinary
composed Unicode and the decomposed form HFS+ uses for file names, and of
the Python parser that builds the crate's decomposition tables from Apple's
Technical Note TN1150 table.

- `options.dfy` (module `Options`): the `Option` type.
- `reverse_tree.dfy` (module `ReverseTree`): `ReverseTreeNode` of
  `src/reverse_tree.rs` as the datatype `Node(current, next)`. Because the
  datatype is inductive, every trie is finite and acyclic and every walk
  terminates. The module also defines the four node shapes the composer
  tells apart, and the walk from the root through the `next` maps.
- `hangul.dfy` (module `Hangul`): `src/hangul.rs`, following section 3.12
  "Conjoining Jamo Behavior" of The Unicode Standard.
  - The range predicates and `decomopse_hangul_syllable` are functions.
  - `compose_hangul_jamos` is a method with the source's `for` loop. It is
    proved equal to the recursive reference function `ComposedJamos`.
  - Every `from_u32(..).unwrap()` is a conversion `as char`. Its
    well-formedness check is the proof that the unwrap cannot panic.
- `hfs_nfd.dfy` (module `HfsNfd`): `decompose_into_hfs_nfd` and
  `compose_from_hfs_nfd` of `src/lib.rs`.
  - The generated tables are parameters: `MAP_TO_HFS` is
    `table: map<char, seq<char>>` and `MAP_TO_NORMAL` is `root: Dict`.
  - Both functions are methods with the source's loops. Each is proved equal
    to a reference function, `Decomposed` and `Composed` respectively.
  - The composer's reference is a state machine. `Step` is one pass of the
    inner `loop` for one character, `Run` is the fold over the input, and
    `Finish` is the tail after the loop. The cursor `referencing_dict` is the
    path walked from the root.
- `compose_properties.dfy` (module `ComposeProperties`): properties of the
  composer:
  - the invariant kept between characters;
  - the fallback after a tentative match;
  - plain text, which completes no entry but whose characters may start
    entries: the composer emits what it buffered raw at each dead end and
    composes each jamo run on its own;
  - definite and ambiguous matches inside plain text;
  - pass-through of text outside the table;
  - agreement with `compose_hangul_jamos` outside the table;
  - walk correctness for the entries of a trie;
  - the round trips through the decomposer.
- `sample_trie.dfy` (module `SampleTrie`): a few entries of the two tables.
  - These are the entries the repository's tests look up: é, ポ, and the
    capital alpha with prosgegrammeni family, and also ó, so that the "o"
    of "Pokémon" starts an entry that fails.
  - The module has the crate's doc examples and the end-of-input order.
  - It also has a small trie with a prefix node between two ambiguous ones,
    which shows where characters buffered between two tentative matches go.
- `table_builder.dfy` (module `TableBuilder`):
  `FetchingDecompositionHTMLParser` of `fetch_update_table.py`.
  - The parser is a class with the source's five fields. Its handlers are
    methods, each proved against a function on a `Snapshot` of the fields.
  - The trie insertion is a method with a `while` loop over the code points.
  - The nested `{"current", "next"}` dictionaries are stored by path. The
    key `p` is the node reached by the walk along `p`, and the value is that
    node's `"current"`.

The two ordering quirks of `compose_from_hfs_nfd` are modelled as the code
is written, and shown by `SampleTrie.BufferedBetweenTentatives` and
`SampleTrie.EndOfInputOrder`:

- characters buffered at a prefix node between two tentative matches are
  emitted after the later tentative character;
- at end of input, the tentative character comes before a jamo run that was
  buffered ahead of it.

## Model

| member | source | states |
|---|---|---|
| ReverseTree.New | src/reverse_tree.rs:13-18 | the node holds exactly the given `current` and `next`, and any node with those two parts is that node |
| ReverseTree.ShapeOf | src/lib.rs:68-141 | a node is ambiguous, a prefix, a leaf or dead, exactly as `current` and `next` are both set, only `next`, only `current`, or neither |
| ReverseTree.WalkExtends | src/code_table_test.rs:24-56 | walking one character further is a lookup of that character in the `next` map reached so far, and fails when the map has no such key |
| Hangul.CountsAgree | src/hangul.rs:1-9 | NCOUNT = VCOUNT·TCOUNT and SCOUNT = LCOUNT·NCOUNT |
| Hangul.IsHangulPrecomposedSyllable | src/hangul.rs:11-13 | true exactly for SBASE ≤ ch < SBASE + SCOUNT |
| Hangul.IsHangulConjoinableJamo | src/hangul.rs:15-19 | true exactly for a leading jamo, a vowel jamo, or TBASE < ch < TBASE + TCOUNT; U+11A7 is excluded |
| Hangul.ComposeLV | src/hangul.rs:32-39 | L·V makes an LV syllable whose index is ((l−LBASE)·VCOUNT + (v−VBASE))·TCOUNT; the unwrap cannot fail |
| Hangul.ComposeLVT | src/hangul.rs:47-54 | LV plus a trailing index 0 ≤ t−TBASE < TCOUNT adds the index, keeps the LV part and stays a syllable; the unwrap cannot fail |
| Hangul.ComposeFrom | src/hangul.rs:30-73 | the merge loop from one lookback emits at least one character and never more than it reads |
| Hangul.ComposedJamos | src/hangul.rs:21-24 | the output is empty exactly when the input is, and never longer than it |
| Hangul.ComposeHangulJamos | src/hangul.rs:21-75 | the loop, with `tentative_composed_syllable` always None or `last`, returns `ComposedJamos(source)` |
| Hangul.ComposeFromUnfold | src/hangul.rs:30-67 | each iteration either merges L·V or LV·T and consumes the character without emitting, or emits the lookback |
| Hangul.MergeRules | src/hangul.rs:32-59 | the L·V and LV·T formulas, including tindex 0 (U+11A7 is absorbed), and the case in which neither applies |
| Hangul.DecomposeHangulSyllable | src/hangul.rs:77-92 | a non-syllable gives `[ch]`; a syllable gives L, V and an optional T, with T present exactly when the index is not a multiple of TCOUNT, and the index recomposes from them |
| Hangul.IndexSplit | src/hangul.rs:81-85 | the division and modulo split of a syllable index returns its L, V and T parts |
| Hangul.DecomposedSyllableIsJamo | src/hangul.rs:122-139 | every character of a syllable's decomposition is a conjoinable jamo and none is a syllable; every unwrap gets a valid scalar value |
| Hangul.DecomposeAllSyllablesChars | src/hangul.rs:141-157 | every character of a decomposed text is a jamo or a character of the text, and none is a syllable |
| Hangul.DecomposeAllSyllablesAppend | src/hangul.rs:141-157 | per-character decomposition distributes over concatenation |
| Hangul.ComposeSyllableJamos | src/hangul.rs:21-92 | the jamo of one syllable compose back to that syllable when the next character does not extend it |
| Hangul.ComposeFromDecomposed | src/hangul.rs:21-92 | from a lookback that is not L, the decomposition of a text without mergeable jamo composes to the lookback and then the text |
| Hangul.ComposeDecomposeRoundTrip | src/hangul.rs:159-167 | for every text without conjoinable jamo and without U+11A7, composing the per-character decomposition gives the text back |
| Hangul.JamoRunRoundTrip | src/hangul.rs:21-92 | an L V run, or an L V T run with T in U+11A8..U+11C2, composes to one syllable, and that syllable decomposes back to the run |
| Hangul.ComposeWithoutVowelsOrTrailing | src/hangul.rs:30-73 | with no vowel jamo and no character in U+11A7..U+11C2 after the lookback, nothing merges |
| Hangul.UnchangedWithoutVowelsOrTrailing | src/hangul.rs:21-75 | a text with no vowel jamo and no character in U+11A7..U+11C2 is returned unchanged |
| Hangul.ComposeFromSplit | src/hangul.rs:30-67 | a character that neither merges nor is merged into cuts the merge loop into two independent halves |
| Hangul.ComposedJamosAppend | src/hangul.rs:21-75 | composing a text that ends in such a character followed by another text composes each text on its own |
| Hangul.InertHead | src/hangul.rs:30-67 | a text that starts with such a character composes to that character followed by the composed rest |
| Hangul.ComposedJamosCut | src/hangul.rs:21-75 | ComposeFromSplit, applied to a whole text |
| Hangul.ComposedJamosCloseRun | src/hangul.rs:21-75 | a jamo run closed by such a character composes on its own, and the character is copied |
| Hangul.InertLookback | src/hangul.rs:30-67 | such a lookback is emitted as it is |
| HfsNfd.DecomposeIntoHfsNfd | src/lib.rs:28-44 | the loop returns `Decomposed(table, input)`: each character is mapped on its own, through the table first, then Hangul arithmetic, then as itself |
| HfsNfd.TableWins | src/lib.rs:32-40 | a table key decomposes to its entry, even when it is also a Hangul syllable |
| HfsNfd.DecomposedWithoutTable | src/lib.rs:31-39 | with no table key in the text, decomposition is the Hangul decomposition of every character |
| HfsNfd.DecomposedAppend | src/lib.rs:31-42 | decompose(a + b) = decompose(a) + decompose(b) |
| HfsNfd.DecomposedLength | src/lib.rs:28-44 | with table entries of 1 to 4 characters, the output is between 1 and 4 times as long as the input |
| HfsNfd.DecomposedIsFixed | src/lib.rs:221-227 | over a table whose values hold no key and no syllable, and in which no jamo is a key, every output character is left alone by decomposition |
| HfsNfd.DecomposedOfFixed | src/lib.rs:235-241 | a text of characters that decomposition leaves alone is returned unchanged |
| HfsNfd.DecomposedIdempotent | src/lib.rs:221-227 | over such a table, decomposing decomposed text changes nothing |
| HfsNfd.FlushBuffered | src/lib.rs:74-94 | after the flush of the dead-node branch, nothing is buffered and the cursor is at the root, so a retry cannot flush again |
| HfsNfd.StepRetries | src/lib.rs:69-97 | a dead or missing node with something buffered flushes and reads the same character again |
| HfsNfd.StepBuffersJamo | src/lib.rs:98-102 | a dead or missing node with nothing buffered appends a jamo to the pending run and leaves the cursor at the root |
| HfsNfd.StepPassesThrough | src/lib.rs:103-109 | a dead or missing node with nothing buffered and a character that is not a jamo emits the composed jamo run, then the character |
| HfsNfd.StepExtendsPrefix | src/lib.rs:112-119 | a prefix node advances the cursor and buffers the raw character |
| HfsNfd.StepRecordsTentative | src/lib.rs:120-137 | an ambiguous node advances and makes its character the tentative match; the first one takes over the raw buffer, a later one leaves it alone |
| HfsNfd.StepEmitsDefinite | src/lib.rs:138-152 | a leaf emits the composed jamo run, then its character, clears every buffer and returns to the root |
| HfsNfd.RunSnoc | src/lib.rs:66-155 | reading one more input character is one more pass of the inner loop |
| HfsNfd.FlushJamoRun | src/lib.rs:76-79 | appends the composed pending jamo run to the result and empties the run |
| HfsNfd.FlushBufferedChars | src/lib.rs:74-94 | the state after the flush is `FlushBuffered` of the state before, and `try_again` holds exactly when something was buffered |
| HfsNfd.EmitRemaining | src/lib.rs:156-164 | appends the tentative character, then the composed jamo run, then the raw buffer (`Finish`) |
| HfsNfd.ComposeFromHfsNfd | src/lib.rs:58-166 | the nested loop with its `continue` retry terminates (at most one retry per character) and returns `Composed(root, input)` |
| ComposeProperties.StepConsistent | src/lib.rs:66-155 | one pass of the inner loop keeps the invariant: the cursor is at the root exactly when no raw characters and no tentative match are buffered, the tentative character and the determined characters are set together, and the pending run holds only jamo |
| ComposeProperties.RunConsistent | src/lib.rs:66-155 | the invariant holds after every prefix of the input |
| ComposeProperties.StepFallsBack | src/lib.rs:74-97 | a dead end with something buffered emits the composed jamo run, the tentative character and the raw characters buffered since it, in that order, and rereads the character from the root with nothing buffered |
| ComposeProperties.PlainFromFirstLevel | src/lib.rs:69-119 | text is plain when no jamo in it is a root key and every other root key in it holds no character and does not continue with the next character; most Latin letters and kana start entries this way |
| ComposeProperties.ComposeRunsNoJamo | src/hangul.rs:21-75 | composing the jamo runs of a text without jamo gives the text back |
| ComposeProperties.ComposeRunsFlush | src/lib.rs:85-93 | text before a jamo run, the run, then characters that are no jamo: the runs compose as the three parts composed on their own |
| ComposeProperties.ComposeRunsInert | src/hangul.rs:30-67 | where every character that is no jamo takes no part in merges, composing the runs one by one is `ComposedJamos` of the whole text |
| ComposeProperties.StepRaw | src/lib.rs:69-119 | reading one more character of plain text keeps the composer holding only a jamo run followed by raw characters that walk from the root, with `ComposeRuns` of everything before them emitted |
| ComposeProperties.RunRaw | src/lib.rs:66-155 | after every plain text the composer is in that state: no tentative match, the emitted output is the runs composed up to the buffered part |
| ComposeProperties.PlainPrefix | src/lib.rs:66-155 | a prefix of plain text is plain |
| ComposeProperties.ComposedPlain | src/lib.rs:58-166 | on plain text, compose_from_hfs_nfd emits every raw character it buffered at a dead end unchanged (lines 85-93) and composes each jamo run on its own: the result is `ComposeRuns` of the text |
| ComposeProperties.ComposedPassesThrough | src/lib.rs:229-234 | compose returns its input when no infix of it completes an entry and no character is a jamo, even where its characters start entries, as in "Immutable" |
| ComposeProperties.StepShifted | src/lib.rs:66-155 | the inner loop never reads the output it has emitted: output emitted earlier stays ahead of everything emitted later |
| ComposeProperties.RunAppend | src/lib.rs:66-155 | reading `a` and then `s` is reading `s` from the state `a` leaves |
| ComposeProperties.ComposedResumes | src/lib.rs:58-166 | two inputs that leave the same state, up to output the first has already emitted, compose every continuation alike |
| ComposeProperties.AfterFlush | src/lib.rs:94-97 | after the flush the retried character is read as if the input started with it, behind the output emitted so far |
| ComposeProperties.FlushBeforeEntry | src/lib.rs:74-97 | after plain text that buffers raw characters, a character that continues none of its walks flushes them raw, then is read from the root |
| ComposeProperties.LeafAtFlush | src/lib.rs:138-152 | with only a jamo run buffered, a definite match followed by plain text gives the composed run, the entry's character and then the plain text's runs composed |
| ComposeProperties.LeafAtStart | src/lib.rs:138-152 | the same for a definite match at the start of the input |
| ComposeProperties.AmbiguousAtFlush | src/lib.rs:74-97 | with only a jamo run buffered, an ambiguous match followed by plain text whose first character it does not continue gives the composed run, the entry's character and then the plain text's runs composed |
| ComposeProperties.AmbiguousAtStart | src/lib.rs:74-97 | the same for an ambiguous match at the start of the input |
| ComposeProperties.SplitJamoTail | src/lib.rs:100-109 | cuts a text before its trailing jamo run: the two parts rejoin to the text, the run holds only jamo, and the part before it does not end in a jamo |
| ComposeProperties.OutsideTableInert | src/hangul.rs:30-67 | outside the table, a character that is not a jamo takes no part in Hangul merges |
| ComposeProperties.BodyEndsInert | src/hangul.rs:30-67 | outside the table, the text before the trailing jamo run ends in such a character |
| ComposeProperties.RunOutsideTable | src/lib.rs:98-109 | outside the table the composer has emitted the composed text up to the trailing jamo run and holds that run |
| ComposeProperties.StepOutsideTable | src/lib.rs:98-109 | one character outside the table, read with only a jamo run buffered, either joins the run or closes it |
| ComposeProperties.FinishOutsideTable | src/lib.rs:156-164 | at end of input with only a jamo run buffered, the run is composed and appended |
| ComposeProperties.ComposedOutsideTable | src/lib.rs:58-166 | outside the table, compose_from_hfs_nfd equals compose_hangul_jamos of the whole text |
| ComposeProperties.DecomposedRunsBack | src/hangul.rs:159-167 | a text with no table key and no mergeable jamo comes back when the jamo runs of its decomposition are composed one by one |
| ComposeProperties.HangulRoundTrip | src/lib.rs:208-213 | a text with no table key and no mergeable jamo whose decomposition is plain is restored by composing that decomposition; its characters may start entries, as in "Han Juri / 한주리" |
| ComposeProperties.StepOnPath | src/lib.rs:112-137 | with the cursor on an entry's walk, the next character of the entry advances into an inner node |
| ComposeProperties.AdvanceInside | src/lib.rs:112-137 | an inner node advances the cursor and emits nothing; raw characters are buffered until the first tentative match, which then takes them over |
| ComposeProperties.RunAlongPath | src/lib.rs:112-137 | reading the inner part of an entry emits nothing, and, with no prefix node after an ambiguous one, a tentative match has determined the whole path |
| ComposeProperties.StepAtEntryEnd | src/lib.rs:120-152 | the last character of an entry advances to the entry's end node |
| ComposeProperties.AdvanceAtEntryEnd | src/lib.rs:120-152 | the end node of an entry is a definite match if it is a leaf, and otherwise the new tentative match |
| ComposeProperties.EntryRun | src/lib.rs:112-152 | an entry whose walk ends at a leaf emits the buffered jamo run and its character; one ending at an ambiguous node leaves its character tentative |
| ComposeProperties.EntryComposes | src/lib.rs:120-164 | an entry composes to its character: after the buffered jamo run for a leaf, and before it for an ambiguous node at the end of input |
| ComposeProperties.LeafInText | src/lib.rs:69-152 | a definite match between two plain texts, whose first character continues no walk of the text before it, is replaced by its character, and each plain text composes to its runs composed |
| ComposeProperties.AmbiguousInText | src/lib.rs:69-137 | the same for an ambiguous match whose node the following character does not continue: the tentative character is emitted and that character is read again from the root |
| ComposeProperties.TableCharRoundTrip | src/code_table_test.rs:98-123 | over a trie that reverses the table, every table character survives decomposition followed by composition. Reversing means: every entry is non-empty, walks through nodes that all have children to a node holding its key, and, when that node is ambiguous, passes no prefix node after an ambiguous one. This is an assumption about the generated `MAP_TO_NORMAL`. The repository checks only the walk part, and only by running `normal_to_hfs_all` (src/code_table_test.rs:105-123), which walks to every node with `try_compose`; nothing checks the last condition, and SampleTrie.QuirkEntryNotRestored shows that it is needed |
| ComposeProperties.KeyInTextRoundTrip | src/lib.rs:208-213 | a table character whose entry is a definite match, between two texts HangulRoundTrip restores, whose first character continues no walk of the text before it, is restored with them |
| SampleTrie.SampleWalks | src/code_table_test.rs:84-97 | ホ U+309A walks to ポ; U+0391 U+0345 to U+1FBC, extended by U+0313 to U+1F88, then by U+0300 to U+1F8A and by U+0301 to U+1F8C |
| SampleTrie.LatinKanaReversed | src/code_table_test.rs:84-97 | the entries of é, ó and ポ walk to their characters |
| SampleTrie.AlphaShortReversed | src/code_table_test.rs:84-97 | the entries of U+1FBC and U+1F88 walk to ambiguous nodes holding them |
| SampleTrie.AlphaLeavesReversed | src/code_table_test.rs:84-97 | the entries of U+1F8A and U+1F8C walk to leaves holding them |
| SampleTrie.SampleReverses | src/code_table_test.rs:105-123 | the sample trie reverses the sample table |
| SampleTrie.SampleRoundTrips | src/code_table_test.rs:98-123 | every sample character survives decomposition followed by composition |
| SampleTrie.PokemonDecomposes | src/lib.rs:24-27 | "Pok" U+00E9 "mon" decomposes to "Poke" U+0301 "mon" |
| SampleTrie.PokemonComposes | src/lib.rs:54-57 | "Poke" U+0301 "mon" composes to "Pok" U+00E9 "mon", although each "o" starts the entry of U+00F3 and is emitted raw at the dead end |
| SampleTrie.PokContinuesNoWalk | src/lib.rs:74-97 | "e" continues no walk along a suffix of "Pok" |
| SampleTrie.MotionUnchanged | src/lib.rs:229-234 | "motion", whose "o"s start an entry that the next letter does not continue, composes to itself |
| SampleTrie.MixedRoundTrip | src/lib.rs:208-213 | "o" U+D558 decomposes to "o" U+1112 U+1161 and composes back: the raw "o" is flushed before the jamo run |
| SampleTrie.AlphaFallsBack | src/lib.rs:69-137 | U+0391 U+0345 U+0342 composes to U+1FBC U+0342: the tentative match is emitted and U+0342 is read again |
| SampleTrie.HaComposes | src/hangul.rs:32-39 | U+1112 U+1161 composes to U+D558 |
| SampleTrie.HaRun | src/lib.rs:98-102 | reading U+1112 U+1161 only fills the pending jamo run |
| SampleTrie.EndOfInputOrder | src/lib.rs:156-164 | U+1112 U+1161 U+0391 U+0345 composes to U+1FBC U+D558: at end of input the tentative character comes before the earlier jamo run |
| SampleTrie.QuirkAb | src/lib.rs:120-137 | the first ambiguous node takes over the raw buffer and becomes the tentative match |
| SampleTrie.QuirkAbc | src/lib.rs:112-119 | a prefix node after it buffers its character raw |
| SampleTrie.QuirkAbcd | src/lib.rs:120-137 | a later ambiguous node replaces the tentative character and leaves the raw buffer alone |
| SampleTrie.QuirkFallsBack | src/lib.rs:74-97 | the dead end after that emits the tentative character before the raw buffer |
| SampleTrie.QuirkEntryNotRestored | src/lib.rs:85-93 | "abcd" walks to Y, yet composes to "Yc": an entry with a prefix node after an ambiguous one does not compose back |
| SampleTrie.BufferedBetweenTentatives | src/lib.rs:69-137 | "abcdq" composes to "Ycq": the character buffered between two tentative matches is emitted after the later one |
| TableBuilder.LowerChar | fetch_update_table.py:28 | an ASCII capital letter is lowered by 32, and any other character is kept |
| TableBuilder.Lower | fetch_update_table.py:28-30 | `tag.lower()` lowers every character and keeps the length |
| TableBuilder.SplitSpaces | fetch_update_table.py:50 | `data.split(" ")` gives at least one piece, no piece contains a space, the pieces joined with single spaces give the data, and the first piece is the text before the first space |
| TableBuilder.SplitJoin | fetch_update_table.py:50 | splitting a join of pieces without spaces gives the pieces back |
| TableBuilder.SplitWithoutSpace | fetch_update_table.py:50 | text without a space splits into itself |
| TableBuilder.SplitBeforeSpace | fetch_update_table.py:50 | text without a space, then a space, then more text, splits into that text followed by the pieces of the rest |
| TableBuilder.HexRun | fetch_update_table.py:20-21 | `[0-9A-F]+` is greedy: the match is the longest run of upper-case hex digits at the start |
| TableBuilder.OneMatch | fetch_update_table.py:49 | `one_regex.match` succeeds exactly when the token starts with "0x" and an upper-case hex digit |
| TableBuilder.ParseCodepoints | fetch_update_table.py:46-53 | the comprehension succeeds exactly when every matching token's value is below 0x110000 (`chr` raises otherwise), and begins with the first token's value when it matches |
| TableBuilder.ParseSkips | fetch_update_table.py:52 | a token `one_regex` does not match contributes nothing |
| TableBuilder.ParseAppend | fetch_update_table.py:46-53 | the tokens of `a + b` convert exactly when those of `a` and of `b` do, and give the code points of `a` followed by those of `b`, in order |
| TableBuilder.FirstTokenMatches | fetch_update_table.py:44-69 | data that `overall_regex` accepts has a matching first token, so `codepoints[0]` exists |
| TableBuilder.HexRoundTrip | fetch_update_table.py:47 | `int(..., 16)` reads back the upper-case hex spelling of every number |
| TableBuilder.HexRunWhole | fetch_update_table.py:21 | a hex-digit run followed by a non-digit is matched whole |
| TableBuilder.TokenParses | fetch_update_table.py:47-49 | the token of a code point matches `one_regex` and reads back as that code point |
| TableBuilder.TokensParse | fetch_update_table.py:46-53 | the comprehension reads back every code point of written tokens |
| TableBuilder.CellParses | fetch_update_table.py:44-53 | a cell of space-separated tokens passes `overall_regex` and parses back into its code points |
| TableBuilder.Prefixes | fetch_update_table.py:57-64 | the nodes on the walk along a path are its non-empty prefixes |
| TableBuilder.Defaulted | fetch_update_table.py:57-64 | `setdefault` along a path adds the missing nodes, holding None, and changes no existing node |
| TableBuilder.DefaultedSnoc | fetch_update_table.py:61-64 | one more `setdefault` creates the next node on the walk if it is missing |
| TableBuilder.InsertedReaches | fetch_update_table.py:57-65 | after insertion, every node on the walk exists, the end node holds the pending character, other nodes keep what they held, and no other node is added |
| TableBuilder.LaterEntryWins | fetch_update_table.py:62-65 | inserting the same decomposition twice leaves the later character |
| TableBuilder.InsertedKeepsShape | fetch_update_table.py:55-65 | insertion of a path of two or more code points keeps the trie prefix-closed and gives no top-level node a character |
| TableBuilder.StartTagged | fetch_update_table.py:24-31 | `td` sets `in_td`; `p` sets `in_p` only inside a cell; nothing else changes |
| TableBuilder.EndTagged | fetch_update_table.py:33-40 | `td` clears `in_td` and `p` clears `in_p`, each on its own; nothing else changes |
| TableBuilder.InitialValid | fetch_update_table.py:12-22 | the state `__init__` leaves keeps the parser's invariant |
| TableBuilder.TagsKeepValid | fetch_update_table.py:24-40 | tags keep the invariant |
| TableBuilder.DataKeepsValid | fetch_update_table.py:42-69 | handle_data keeps the invariant: the trie is prefix-closed, no top-level node holds a character, every recorded decomposition walks to a node holding a character, and the pending character is at most one code point |
| TableBuilder.DataEffect | fetch_update_table.py:42-69 | accepted data with one code point only sets the pending character; with more, `encoding_dic` maps the pending character to them, the trie gains exactly the nodes on their walk, the end node holds the pending character, and the pending character is reset to "" |
| TableBuilder.CellRecorded | fetch_update_table.py:42-69 | a cell read inside a paragraph of a cell never raises, and is recorded as DataEffect says |
| TableBuilder.CellOutsideIgnored | fetch_update_table.py:43 | data outside a paragraph of a cell changes nothing |
| TableBuilder.DecompositionParser.constructor | fetch_update_table.py:12-22 | both flags false, both dictionaries empty, the pending character "", and the invariant holds |
| TableBuilder.DecompositionParser.HandleStartTag | fetch_update_table.py:24-31 | the new state is `StartTagged` of the old one, and the parser's invariant is kept |
| TableBuilder.DecompositionParser.HandleEndTag | fetch_update_table.py:33-40 | the new state is `EndTagged` of the old one, and the parser's invariant is kept |
| TableBuilder.DecompositionParser.HandleData | fetch_update_table.py:42-69 | raises exactly when `DataHandled` is None, and then leaves the state alone; otherwise the new state is `DataHandled` of the old one; the parser's invariant is kept |
| TableBuilder.DecompositionParser.RecordDecomposition | fetch_update_table.py:55-66 | `encoding_dic` maps the pending character to the code points, `decoding_dic` becomes `Inserted` of the old one, the pending character becomes "", and the flags stay |
| TableBuilder.DecompositionParser.InsertPath | fetch_update_table.py:57-65 | the `setdefault` walk and the store of `"current"` turn `decoding_dic` into `Inserted(old, codepoints, current)`, and change no other field |

## Left out

- `src/code_table.rs` is not part of this model. `MAP_TO_HFS` and
  `MAP_TO_NORMAL` are the parameters `table` and `root`. The lemmas state
  what they assume of them: `ValidHfsMap`, `ClosedTable` and `Reverses`.
  `SampleTrie` has only a few of their entries.
- `lazy_static`, `AHashMap`, `Box` and hashing are left out. The maps are
  Dafny `map`s.
- The UTF-8 encoding of `String` is left out. Text is `seq<char>`, where a
  `char` is a Unicode scalar value.
- `generate_table.py` is not part of this model. It writes Rust source text.
- The `#[cfg(test)]` modules and `src/code_table_test.rs` are test code and
  are not modelled as code. Their cases appear as lemmas: `SampleTrie` and
  the round-trip lemmas. The benchmarks are left out.
- The `__main__` block of `fetch_update_table.py` is left out: the HTTP
  request, the timestamp and `json.dump`. The `HTMLParser` tokeniser is left
  out too. The handlers are methods called with a tag or a data string, and
  the unused `attrs` parameter is dropped.
- Python strings of one character are `CodePoint`s, integers in
  0..0x10FFFF; surrogates are included, as in Python. The empty initial
  `char_to_be_composed` is the empty sequence.
- TableBuilder.DecompositionParser.HandleData: `chr` raising `ValueError` is
  the result `raised` with the state unchanged. The exception does not
  propagate, and an `OverflowError` for values beyond a machine integer is
  treated the same way.
- TableBuilder.Lower: lowers ASCII letters only, unlike `str.lower()`. For the
  comparisons with "td" and "p" the source makes, the two agree, because no
  other character lowers to an ASCII letter among t, d and p.
- TableBuilder.DecompositionParser.InsertPath: the nested dictionaries are
  modelled by their nodes addressed by path, not as mutable objects linked by
  references. The in-place update through the alias `d` is therefore a
  functional update of the path store. The `"next"` map of a node whose path
  has no extension is empty in the source, and is simply absent here.
- HfsNfd.ComposeFromHfsNfd:
  - `tentative_determined_chars` and the cursor's path are ghost variables,
    because the source never emits them. The method branches on
    `tentative_composed`, which is set exactly when they are.
  - The flushes the source writes inline are the helper methods
    `FlushJamoRun`, `FlushBufferedChars` and `EmitRemaining`.
- ComposeProperties.TableCharRoundTrip and ComposeProperties.KeyInTextRoundTrip:
  the round trip is proved over any trie that satisfies `Reverses`, not over
  the generated `MAP_TO_NORMAL`, which is not part of this model. Whether the
  generated trie has no prefix node after an ambiguous one is not checked.
- ComposeProperties.LeafInText, ComposeProperties.AmbiguousInText,
  ComposeProperties.HangulRoundTrip and ComposeProperties.KeyInTextRoundTrip
  cover text around an entry that is plain (`PlainText`) and whose last
  characters the entry's first character does not continue
  (`ContinuesNoWalk`). Text in which a longer walk from an earlier character
  overlaps the entry is not covered by a lemma.
- The ordering quirks at lines 85-93 and 156-161 of `src/lib.rs` are
  modelled as written. No lemma claims that the composer preserves the
  order of its input in general.
