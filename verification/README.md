# A verified model of the interpreter core and the wire layer

This project models, in Dafny, the hand-written algorithms of the shared Lua interpreter
(`lua/`) and of the network code around it (`common/`, `native/`), and proves what they are for.

| files | modules | what they model |
|---|---|---|
| `pattern_items`, `pattern_match`, `pattern_captures`, `pattern_spans`, `pattern_find`, `pattern_bytes`, `gsub`, `gsub_templates` | `PatternItems`, `PatternMatch`, `PatternCaptures`, `PatternSpans`, `PatternFind`, `PatternBytes`, `Gsub`, `GsubTemplates` | the backtracking matcher with and without captures, `find`, `gmatch`, `gsub` |
| `bits`, `pack_ints`, `pack_format`, `pack_codec`, `pack_laws`, `pack_letters` | `Bits`, `PackInts`, `PackFormat`, `PackCodec`, `PackLaws`, `PackLetters` | `string.pack`, `packsize`, `unpack` |
| `expr_grammar`, `expr_arena`, `expr_roundtrip`, `expr_parser`, `expr_precedence` | `ExprGrammar`, `ExprArena`, `ExprRoundTrip`, `ExprParser`, `ExprPrecedence` | the expression parser over its node arena |
| `goto_spec`, `goto_parser` | `GotoSpec`, `GotoParser` | label and `goto` scoping |
| `env_spec`, `env`, `env_laws` | `EnvSpec`, `EnvCells`, `EnvLaws` | frames, locals, upvalues and cells with lazy boxing |
| `table_spec`, `tables`, `table_sort`, `table_laws` | `TableSpec`, `Tables`, `TableSort`, `TableLaws` | slot tables, metatable chains, `next`, `table.sort` |
| `strings`, `quote` | `Strings`, `Quote` | the interning arena; `%q` and string literals |
| `wire`, `checksum`, `frames`, `dns` | `Wire`, `Checksum`, `Frames`, `Dns` | checksums, frames, DNS names |
| `tftp_wire`, `tftp_transfer` | `TftpWire`, `TftpTransfer` | TFTP packets and the download loop against an RFC 1350 server |
| `wire_laws`, `limits` | `WireLaws`, `Limits` | every packet and frame byte by byte; the capacities as numbers |

How the model is built:

- Code that works step by step is a method or a class with the same loops and branches, proved
  against a specification function; the laws are lemmas about those functions, over all inputs
  and all runs.
- A Rust panic (an index or slice out of range, a failed overflow check) is an outcome of its
  own, `Panicked` or `Panic`, with the exact condition under which it happens.
- Whether arithmetic overflow is checked depends on the build: the `Makefile` targets use
  `--release`, where it is not, `cargo build` and `cargo test` check. Where the results differ,
  the build mode is a parameter `checks` and both modes are proved: masked shifts in `read_int`
  and in the `s` option, the 32-bit checksum sum, decimal numbers in TFTP options.
- What letters, operators, constants and fields mean is stated a second time, independently of the
  definitions the methods are proved against: on literal bytes and tokens (`PatternBytes`,
  `GsubTemplates`, `PackLetters`, `ExprPrecedence`, `WireLaws`, `Quote.ReadingMeans`), and by what a
  lookup sees afterwards (`EnvLaws`, `TableLaws`).
- Strings inside values stand for their bytes; module `Strings` proves that comparing references
  is comparing bytes. Both parsers carry the registered strings and fail when one more does not
  fit. Values are float-free.
- Where the code does not do what its comments or Lua promise, the code is modelled as it is. The
  next section names the lemma with an input, or the contract with the exact condition, for each.

## What the code does differently from its documentation

- An outer label recorded before a `goto`'s block wins over a nearer label that comes later,
  although `lua/src/parse.rs:309-314` says innermost first:
  `GotoSpec.NotAlwaysInnermost`, exact condition `GotoSpec.InnermostIff`.
- A captured name without a cell reads as nil and swallows assignments (`lua/src/lib.rs:1779-1787`,
  `lua/src/lib.rs:1814-1823`), although the comment at `lua/src/lib.rs:487-488` says it resolves to
  a global: `EnvSpec.CapturedWithoutCell`. A 65th global is dropped silently
  (`lua/src/lib.rs:1964-1967`): `EnvSpec.SixtyFifthGlobal`. Exactly when a variable reads back as
  assigned: `EnvSpec.SetThenGet`.
- Capture spans of failed branches are kept: `PatternSpans.StaleCapture`. They are exact, for every
  pattern and below eight, iff as many were recorded as the pattern has groups:
  `PatternSpans.SpansExactIffCount`; always, where behind a quantified item nothing that follows a
  group can fail (as in `%s*(%w+)`): `PatternSpans.QuietSpansExact`. The converse does not hold, as
  `a*(b)c` shows: `PatternSpans.QuietNotNecessary`.
- Plain `find` for a pattern longer than the subject panics, and so does `gmatch` begun past the end
  of the subject with a pattern that cannot fail: `PatternFind.FindPlain`, `Gsub.GmatchState.Advance`.
- A `^` at the start of a `gsub` or `gmatch` pattern anchors at every search position:
  `Gsub.AnchorRepeats`, exact condition `Gsub.AnchoredOnce`; bodies that
  cannot fail and unquantified bodies repeat on some subject: `Gsub.NullableRepeats`,
  `Gsub.UnquantifiedRepeats`. An upper-case class letter does not
  stand for the complement (`%A` is upper-case letters): `PatternItems.UpperIsNoComplement` has the
  byte and says on which bytes it does.
- Without overflow checks integers and length prefixes of 9 to 16 bytes read back as packed, with
  them `unpack` panics on them: `PackLaws.RoundTripIffFaithful`. A length prefix that takes the
  position out of the machine word panics in every build: `PackCodec.Unpack`.
- Without overflow checks the checksum of more than 131074 bytes may come out wrong, with them it
  may panic; exactly when: `Checksum.IpChecksum`.
- `align_pos` rounds up exactly for alignments that are powers of two:
  `PackInts.AlignsExactlyPowersOfTwo`.
- A DHCP header's checksum verifies only if the buffer's checksum field was zero (or all ones) on
  entry: `Frames.HeaderVerifiesIff`.
- A TFTP block that does not fit the 2048-byte receive buffer cuts the file short:
  `TftpTransfer.DownloadCorrect`. The request carries no options (`common/src/tftp.rs:56-82`), so
  a server that keeps to RFC 2347 sends blocks of 512 bytes, which fit; only one that sends an
  option acknowledgement unasked, whose runs are covered too, can bring this about.
- `build_query` checks for less room than it uses: accepted names of 239 to 242 bytes panic:
  `Dns.BuildQuery`.
- `%q` output reads back only without other control bytes and bytes above 126:
  `Quote.QuoteThenLex`.
- A key removed during a traversal ends it with an error: `TableSpec.RemovedKeyInvalid`.

## Model

| member | source | states |
|---|---|---|
| PatternItems.ItemSize | lua/src/eval.rs:310-329 | the length of the pattern item at an offset: two bytes for an escape, through the closing bracket (or the end) for a set, else one |
| PatternItems.SetStopIsBracketStop | lua/src/eval.rs:378-441 | reading a bracket set element by element, ranges included, stops exactly where the scan for the item's length stops |
| PatternItems.MatchBracket | lua/src/eval.rs:378-426 | a byte is accepted iff it is in the set (or not in it, if negated), ranges and classes included; the scan's stop position is the set's end |
| PatternItems.MatchItem | lua/src/eval.rs:335-375 | one byte is consumed iff the item accepts it; a `^` item matches the empty string; which bytes each item accepts: `PatternBytes.ItemMatches` |
| PatternItems.UpperIsNoComplement | lua/src/eval.rs:443-457 | an upper-case class letter is not the complement of the lower-case one, and on which bytes it agrees with it |
| PatternItems.FindCloseParen | lua/src/eval.rs:628-641 | the first unescaped closing parenthesis after an opening one, or none |
| PatternItems.ParseShift | lua/src/eval.rs:219-307 | the items read from an offset are the items of the pattern's suffix, so restarting on a suffix is going on |
| PatternMatch.BestUnique | lua/src/eval.rs:217-307 | among all matches from a position at most one is preferred to all others |
| PatternMatch.RunSound | lua/src/eval.rs:219-307 | what the search finds is a match in the declarative sense |
| PatternMatch.RunComplete | lua/src/eval.rs:219-307 | if a match exists the search finds one, and none is preferred to it |
| PatternMatch.SearchFindsBestMatch | lua/src/eval.rs:217-307 | a length is answered iff a match exists, and it is that of the preferred match: longest first for `*` and `+`, taken first for `?`, shortest first for `-` |
| PatternMatch.MatchInSubject | lua/src/eval.rs:219-307 | a match never ends beyond the subject |
| PatternMatch.UsesIsMax | lua/src/eval.rs:258-266 | the greedy count is the largest number of uses in a row |
| PatternMatch.MatchHere | lua/src/eval.rs:219-307 | the recursive matcher terminates and computes the length of the search's match |
| PatternMatch.MatchQuantified | lua/src/eval.rs:235-297 | a quantified item and the rest of the pattern together |
| PatternMatch.MatchOptional | lua/src/eval.rs:240-251 | `?`: with the item, else without |
| PatternMatch.MatchGreedy | lua/src/eval.rs:252-281 | `*` and `+`: backtracking from the maximum finds the match with the most uses |
| PatternMatch.CountUses | lua/src/eval.rs:259-266 | the counting loop, which an item matching nothing ends |
| PatternMatch.MatchLazy | lua/src/eval.rs:282-295 | `-`: the match with the fewest uses |
| PatternMatch.PastEnd | lua/src/eval.rs:219-307 | past the end of the subject exactly the patterns without `$`, `+`, unclosed group or unquantified item other than `^` match, with length zero |
| PatternMatch.NullableIff | lua/src/eval.rs:219-307 | a pattern matches at every position iff it is one of these |
| PatternCaptures.GmLen | lua/src/eval.rs:507-624 | recording captures never changes the answer of the search |
| PatternCaptures.GmSpansIn | lua/src/eval.rs:530-541 | spans are only appended, at most eight, each inside the subject |
| PatternSpans.GmTrace | lua/src/eval.rs:507-624 | the spans left behind are the first eight of all the spans the search comes by, failed branches included |
| PatternSpans.SpansExactIffCount | lua/src/eval.rs:530-541 | for every pattern the preferred match's group spans are among those, in order; below eight, the recorded spans are the group spans iff there are as many as groups |
| PatternSpans.QuietSpansExact | lua/src/eval.rs:530-541 | where behind every quantified item nothing that follows a group can fail, the recorded spans are exactly the preferred match's groups (the first eight) |
| PatternSpans.QuietNotNecessary | lua/src/eval.rs:571-597 | `a*(b)c` is not of that kind, and its recorded span is exact on every subject |
| PatternSpans.StaleCapture | lua/src/eval.rs:598-612 | an input on which a span of a failed branch stays recorded |
| PatternFind.FirstStartIsLeftmost | lua/src/eval.rs:186-198 | the start found is the leftmost from which a match exists, only the first candidate if anchored |
| PatternFind.StringFind | lua/src/eval.rs:179-199 | the one-based span of the leftmost match at or after the start, if any |
| PatternFind.FindPlain | lua/src/eval.rs:201-215 | the first occurrence of a literal, or that there is none; a panic exactly when a non-empty pattern is longer than the subject and the search starts inside it |
| PatternFind.FindsAgree | lua/src/eval.rs:474-505 | for patterns without groups, searching with captures and without give the same span |
| PatternFind.FoundInSubject | lua/src/eval.rs:477-505 | a match found lies in the subject with all its spans exactly when the search started inside it |
| PatternBytes.ItemMatches | lua/src/eval.rs:219-375 | a byte, `.`, `%` with any letter or other byte, or a bracket set takes the next subject byte exactly if it is one of its own, and the rest of the pattern goes on behind it; each class is an explicit range of bytes |
| PatternBytes.ReadsMembers | lua/src/eval.rs:378-441 | the members of a set, single bytes, ranges and classes, as they are written: what they take, and where the set ends |
| PatternBytes.QuantifierMatches | lua/src/eval.rs:235-297 | `*`, `+` and `?` behind an item take as many bytes as the rest of the pattern allows, `-` as few, out of none at all, at least one, at most one |
| PatternBytes.DollarMatches | lua/src/eval.rs:219-307 | `$` matches at the end of the subject only |
| PatternBytes.CaretMatches | lua/src/eval.rs:335-375 | a `^` inside a pattern matches the empty string |
| PatternBytes.GroupMatches | lua/src/eval.rs:515-541 | a group matches what its body matches on its own, records where, and the rest goes on |
| PatternBytes.UnclosedFails | lua/src/eval.rs:515-541 | a group without closing parenthesis matches nothing |
| PatternBytes.CaretAnchors | lua/src/eval.rs:179-199 | a pattern beginning with `^` is found where the search starts or not at all |
| PatternBytes.FindsFirst | lua/src/eval.rs:179-199 | any other pattern is found at the first place where it matches |
| PatternBytes.FindsItem | lua/src/eval.rs:179-199 | a pattern of one item is found at the first byte it takes: `%d` at the first digit |
| PatternBytes.MatchesFirst | lua/src/eval.rs:477-505 | the same for the search of `gmatch` and `gsub`, with the captures it leaves |
| PatternFind.GmFind | lua/src/eval.rs:477-505 | the leftmost match with its recorded spans |
| PatternFind.GmMatch | lua/src/eval.rs:510-624 | matching from a pattern offset with captures written in place computes the search on the suffix and leaves its spans |
| PatternFind.GmOptional | lua/src/eval.rs:556-570 | `?` with captures |
| PatternFind.GmGreedy | lua/src/eval.rs:571-597 | `*` and `+` with captures, spans of failed attempts included |
| PatternFind.GmLazy | lua/src/eval.rs:598-612 | `-` with captures |
| Gsub.MatchesOrdered | lua/src/eval.rs:1842-1856 | successive matches move forward and do not overlap |
| Gsub.AnchoredAdjacent | lua/src/eval.rs:477-505 | under `^` each successive match starts exactly where the search resumes |
| Gsub.AnchoredOnce | lua/src/eval.rs:477-505 | an anchored pattern has at most one successive match iff it does not match again where the search resumes after the first |
| Gsub.NullableRepeats | lua/src/eval.rs:477-505 | an anchored pattern that cannot fail has more than one successive match on every subject but the empty one |
| Gsub.UnquantifiedRepeats | lua/src/eval.rs:477-505 | an anchored pattern of unquantified items repeats on whatever it matches, written twice |
| Gsub.AnchorRepeats | lua/src/eval.rs:486-503 | `^a` matches three times in `aaa` |
| Gsub.GmatchState.Advance | lua/src/eval.rs:670-727 | each step yields the next of the successive matches, the end is final; a panic exactly when begun past the end with a pattern that cannot fail |
| Gsub.ValidGmatchPattern | lua/src/eval.rs:644-665 | accepts exactly the patterns with balanced unescaped parentheses |
| Gsub.ExpandTemplate | lua/src/eval.rs:1683-1729 | expands `%0` to `%9` and `%%`, with the exact error cases and the 4096-byte limit; what each puts in: `GsubTemplates.TemplateExpands` |
| Gsub.StringGsub | lua/src/eval.rs:1638-1868 | the subject with the successive leftmost matches replaced, up to the limit, and their count; the errors exactly when the parentheses are unbalanced, a replacement is bad or the result does not fit |
| Gsub.CountIsMin | lua/src/eval.rs:1676-1856 | a template or number replaces every match up to the limit: the count is the smaller of the two |
| Gsub.NoHitsKeeps | lua/src/eval.rs:1730-1822 | a table with nothing for any match leaves the subject as it is, with count zero |
| Gsub.GsubConserves | lua/src/eval.rs:1661-1868 | with replacements that put each match back, the result is the subject, for every pattern and limit |
| Gsub.WholeMatchIsIdentity | lua/src/eval.rs:1704-1706 | the template `%0` puts every match back |
| Gsub.GsubWholeMatch | lua/src/eval.rs:1614-1877 | `gsub` with `%0` returns its subject whenever it succeeds |
| GsubTemplates.TemplateExpands | lua/src/eval.rs:1683-1729 | a template of bytes, `%%`, `%0` and `%1` to `%9` puts in exactly these bytes, a percent sign, the match and the captures of these numbers, iff the match has them and the result fits |
| GsubTemplates.MeaningConcat | lua/src/eval.rs:1683-1729 | templates one after the other put in what each puts in |
| GsubTemplates.PlainMeansItself | lua/src/eval.rs:1683-1729 | a template without `%` puts in itself |
| GsubTemplates.TemplateFills | lua/src/eval.rs:1661-1868 | the subject with these bytes in place of the matches up to the limit, everything else kept, and the number of them |
| GsubTemplates.TableAsked | lua/src/eval.rs:1730-1760 | a table is asked for the first capture, or for the match if there is none |
| GsubTemplates.BalancedMeans | lua/src/eval.rs:644-665 | a pattern is accepted iff its parentheses outside escapes match up |
| PackFormat.ParseFmtNum | lua/src/eval.rs:4959-4968 | the decimal number at a position of a format and where it ends |
| PackInts.WriteInt | lua/src/eval.rs:5000-5025 | the low bytes of the two's complement in either order; nothing else in the buffer changes; fails exactly when there is no room |
| PackInts.ReadInt | lua/src/eval.rs:5027-5049 | the value of the shifted bytes or-ed together, sign-extended, for any size; a panic exactly for sizes above eight with overflow checks |
| PackInts.UintBound | lua/src/eval.rs:5035-5043 | up to eight bytes the or-ed word is the number the bytes write, in either order |
| PackInts.ReadBackInt | lua/src/eval.rs:5000-5049 | reading what was written gives the value wrapped to size and signedness, in both byte orders, and from eight bytes on the value itself |
| PackInts.WrappedIffInRange | lua/src/eval.rs:5027-5049 | the wrapped value is the value iff it is in range |
| PackInts.AlignForward | lua/src/eval.rs:4987-4998 | aligning never goes back, nor forward by a whole alignment |
| PackInts.AlignPowerOfTwo | lua/src/eval.rs:4987-4998 | for a power of two the result is the least multiple at or after the position |
| PackInts.AlignsExactlyPowersOfTwo | lua/src/eval.rs:4987-4998 | an alignment rounds every position to its least multiple iff it is a power of two |
| PackCodec.Pack | lua/src/eval.rs:2105-2379 | writes each argument where the format puts it, or reports the first error; what each letter writes: module `PackLetters` |
| PackCodec.PackSize | lua/src/eval.rs:2380-2472 | the size of a format, or the error of a variable-length or bad option |
| PackCodec.Unpack | lua/src/eval.rs:2473-2746 | reads the values back from a position, and the position behind them; every error, a full value stack and the panics of both build modes included |
| PackLaws.UnpackUndoesPack | lua/src/eval.rs:2105-2746 | for every format, byte order, alignment and build mode, unpacking what was packed yields every value (wrapped or cut to its option) and ends at the end, given stack room |
| PackLaws.RoundTripIffFaithful | lua/src/eval.rs:2105-2746 | in either build mode the arguments come back unchanged iff the value stack has room and each argument fits its option: integers in range, NUL-free `z` strings, `s` lengths within the prefix, `c` strings of exactly their length, and with overflow checks sizes up to eight |
| PackLaws.PackSizeIsPackLength | lua/src/eval.rs:2380-2472 | whenever packing succeeds, `packsize` succeeds exactly without `z` and `s`, and is the packed length |
| PackLaws.PackThenUnpack | lua/src/eval.rs:2105-2746 | both round trips, for the two calls in a row, with the next position being the length plus one |
| PackLetters.BytesAreSpelled | lua/src/eval.rs:5000-5025 | the bytes written are those of the number in two's complement, weight by weight |
| PackLetters.TwoBytes | lua/src/eval.rs:2105-2379 | `<I2` packs the low byte first, `>I2` the high one |
| PackLetters.IntegerPacks | lua/src/eval.rs:2105-2379 | `b B h H l L j J T`, and `i I` with or without a number, pack their number in 1, 2, 8 or 1 to 16 (else 4) bytes, least significant first or last |
| PackLetters.IntegerUnpacks | lua/src/eval.rs:2473-2746 | the same letters read every number of their size and sign back from its bytes |
| PackLetters.IntegerShort | lua/src/eval.rs:2473-2746 | too few bytes for an integer are an error |
| PackLetters.IntegerSize | lua/src/eval.rs:2380-2472 | the size of the same letters |
| PackLetters.OrderPacks | lua/src/eval.rs:2130-2132 | `<` and `=` put the least significant byte first from there on, `>` the most significant one |
| PackLetters.OrderUnpacks | lua/src/eval.rs:2514-2516 | the same for unpacking |
| PackLetters.MaxAlignSets | lua/src/eval.rs:2133-2143 | `!` sets the largest alignment, 16 without a number |
| PackLetters.AlignedToMultiple | lua/src/eval.rs:4987-4998 | packing goes on at the least multiple of the alignment, behind zeros |
| PackLetters.BlankSkipped | lua/src/eval.rs:2144-2144 | a blank does nothing |
| PackLetters.PadPacks | lua/src/eval.rs:2145-2152 | `x` packs a zero byte |
| PackLetters.PadUnpacks | lua/src/eval.rs:2473-2746 | `x` skips a byte and has size one |
| PackLetters.AlignLike | lua/src/eval.rs:2153-2175 | `X` aligns as the option behind it would |
| PackLetters.CharsPack | lua/src/eval.rs:2105-2379 | `c` with a number packs that many bytes, cut or filled with zeros |
| PackLetters.CharsUnpack | lua/src/eval.rs:2473-2746 | and reads that many |
| PackLetters.ZeroEndedPacks | lua/src/eval.rs:2105-2379 | `z` packs the bytes and a zero |
| PackLetters.ZeroEndedUnpacks | lua/src/eval.rs:2473-2746 | and reads up to the zero |
| PackLetters.PrefixedPacks | lua/src/eval.rs:2105-2379 | `s` packs the length, in 8 bytes without a number, and the bytes |
| PackLetters.PrefixedUnpacks | lua/src/eval.rs:2473-2746 | and reads them back |
| PackLetters.RealSizes | lua/src/eval.rs:2380-2472 | `f` has size 4, `d` and `n` 8 |
| PackLetters.StringSizes | lua/src/eval.rs:2380-2472 | `c` has its number as size, `z` and `s` have none |
| PackLetters.BadOptions | lua/src/eval.rs:2105-2746 | every other byte, `X` at the end, `c` without a number and integers of none or more than 16 bytes are format errors in all three calls |
| PackLetters.ReadsNumber | lua/src/eval.rs:4959-4968 | the digits of a number in a format read as the number |
| ExprRoundTrip.ParsePrinted | lua/src/parse.rs:678-896 | what an expression prints as at a level, followed by anything that cannot continue it, parses at that level to the same tree |
| ExprRoundTrip.PrintThenParse | lua/src/parse.rs:678-983 | printing with minimal parentheses and parsing gives the tree back and consumes exactly those tokens |
| ExprGrammar.NamesPrinted | lua/src/parse.rs:795-844 | the names interned while parsing printed tokens are the tree's, in its order |
| ExprArena.DenotesFrame | lua/src/lib.rs:1590-1598 | nodes allocated later do not change what a node stands for |
| ExprParser.Parser.Alloc | lua/src/lib.rs:1590-1598 | appends one node, failing exactly when the arena is full |
| ExprParser.Parser.ParseLevel | lua/src/parse.rs:678-778 | parsing at a level consumes what the grammar says, interns the names it consumes and leaves nodes that read back as the tree, or fails as it does; which operators bind tighter: `ExprPrecedence.Groups` |
| ExprParser.Parser.ParseLeftAssoc | lua/src/parse.rs:682-762 | the left-associative levels |
| ExprParser.Parser.ParseConcat | lua/src/parse.rs:721-731 | `..`, right-associative |
| ExprParser.Parser.ParseUnary | lua/src/parse.rs:764-778 | `not` and unary minus |
| ExprParser.Parser.ParsePrimary | lua/src/parse.rs:780-896 | atoms and parentheses, then suffixes |
| ExprParser.Parser.ParseSuffixes | lua/src/parse.rs:832-895 | indexing, calls and method calls, whose receiver becomes the first argument |
| ExprParser.Parser.ParseArgList | lua/src/parse.rs:957-983 | arguments chained through `next` |
| ExprParser.PrintAndParse | lua/src/parse.rs:678-983 | over the arenas: parsing printed tokens succeeds iff the tree needs at most 1024 nodes and its names fit beside the registered strings, and then the nodes read back as the tree |
| ExprPrecedence.Groups | lua/src/parse.rs:678-762 | `x p y q z` groups to the right iff `q` binds tighter than `p`, or both are `..`, the operators from loose to tight being `or`, `and`, comparisons, `..`, `+ -`, `* / %`; each token's operation |
| ExprPrecedence.PrefixFirst | lua/src/parse.rs:764-778 | `not` and unary minus bind tighter than every binary operator |
| ExprPrecedence.PrefixOperand | lua/src/parse.rs:764-778 | a prefixed operand on the right of a binary operator |
| ExprPrecedence.PrefixPrefix | lua/src/parse.rs:764-778 | prefix operators apply from the inside out |
| ExprPrecedence.SuffixFirst | lua/src/parse.rs:832-895 | indexing binds tighter than prefix operators |
| ExprPrecedence.ParensFirst | lua/src/parse.rs:780-831 | an expression in parentheses is an operand |
| ExprPrecedence.DotMeans | lua/src/parse.rs:835-848 | `.name` indexes by the name |
| ExprPrecedence.BracketMeans | lua/src/parse.rs:875-881 | `[key]` indexes by the key |
| ExprPrecedence.CallMeans | lua/src/parse.rs:882-887 | `(args)` calls |
| ExprPrecedence.MethodMeans | lua/src/parse.rs:849-874 | `:name(args)` calls the method with its receiver in front |
| ExprPrecedence.ArgumentsMean | lua/src/parse.rs:957-983 | arguments in order, between commas, up to the parenthesis |
| ExprPrecedence.NodesMean | lua/src/parse.rs:678-983 | what each node of a tree holds |
| GotoSpec.RoundsIsChoice | lua/src/parse.rs:309-354 | the searches made at the ends of all enclosing blocks pick: a label of the own block, else of the innermost block that has it ahead of the jump, else of the innermost that has it |
| GotoSpec.ChoiceIsLabel | lua/src/parse.rs:44-47 | the pick is a label of the jump's name in its own or an enclosing block, and there is none only if no such label exists |
| GotoSpec.InnermostIff | lua/src/parse.rs:343-354 | the pick is in the innermost block with such a label iff that is the own block, has it ahead too, or no outer block has it ahead |
| GotoSpec.NotAlwaysInnermost | lua/src/parse.rs:343-354 | a body in which an outer label wins over a nearer one |
| GotoSpec.NestStep | lua/src/parse.rs:44-47 | blocks nest, and labels of a block lie outside the blocks within it |
| GotoSpec.FirstOfIsFirst | lua/src/parse.rs:343-354 | of several labels of a name in a block the first counts |
| GotoSpec.StatementsMean | lua/src/parse.rs:546-560 | what each kind of statement adds to its block's nodes, labels and jumps |
| GotoParser.Parser.FindLabel | lua/src/parse.rs:343-354 | the first label of the name in the innermost scope that has one |
| GotoParser.Parser.ResolveScope | lua/src/parse.rs:309-341 | the end of a block patches exactly the pending gotos whose label is visible, defers the others in order, and fails only for an unknown label or a full list |
| GotoParser.Parser.ParseStat | lua/src/parse.rs:546-568 | labels and gotos are interned and recorded in the innermost scope; locals are declared and `break` is accepted where the parser does |
| GotoParser.Parser.ParseBlock | lua/src/parse.rs:279-307 | a block leaves its goto nodes patched, its unresolved gotos with the enclosing block, the other scopes alone and none of its locals declared, or names what it exceeds |
| GotoParser.ParseBody | lua/src/parse.rs:271-377 | a script without nested functions parses iff blocks, labels, gotos, nodes and locals fit their capacities, its names fit beside the registered strings, every `break` is in a loop and every goto has a label of its name in its own or an enclosing block; every goto node then holds the node of such a label; when all else holds the failure is the unknown label |
| EnvSpec.SetThenGet | lua/src/lib.rs:1754-1968 | a variable assigned is what the next lookup of its name sees, iff the name denotes a location, or resolves nowhere and is a global already or finds room as one, or the value is nil; what is seen otherwise |
| EnvSpec.CapturedWithoutCell | lua/src/lib.rs:1779-1823 | a captured name without a cell hides its global, reads as nil and swallows assignments |
| EnvSpec.SixtyFifthGlobal | lua/src/lib.rs:1964-1967 | beside 64 globals another one is dropped |
| EnvSpec.AssignElsewhereUnseen | lua/src/lib.rs:1754-1835 | assigning changes no name that denotes another variable |
| EnvSpec.FreshLeavesCaptured | lua/src/lib.rs:1713-1739 | a fresh loop variable leaves captured values alone and is shared with no closure |
| EnvCells.LuaState.CellsNotShared | lua/src/lib.rs:1912-1938 | no two locals share a cell |
| EnvCells.LuaState.PushFrame | lua/src/lib.rs:1643-1665 | a new innermost frame, or the frame limit |
| EnvCells.LuaState.PopFrame | lua/src/lib.rs:1667-1671 | the innermost frame is gone, nothing else changes |
| EnvCells.LuaState.DeclareLocal | lua/src/lib.rs:1673-1690 | a new variable with a location of its own, holding the value; fails exactly when there is no frame or no room; what a lookup then sees: `EnvLaws.DeclareThenGet` |
| EnvCells.LuaState.SetLocalTop | lua/src/lib.rs:1692-1711 | sets or declares in the innermost frame, boxed or not |
| EnvCells.LuaState.SetLocalTopCell | lua/src/lib.rs:1713-1739 | the loop variable becomes a new variable for this iteration |
| EnvCells.LuaState.AllocCell | lua/src/lib.rs:1837-1846 | a cell no variable had before, or the cell limit |
| EnvCells.LuaState.Find | lua/src/lib.rs:1797-1828 | name resolution: frames inward to outward up to the function's own, the first slot of the name in a frame, then the running closure's names |
| EnvCells.LuaState.AssignLocal | lua/src/lib.rs:1754-1792 | assignment through slots and cells is assignment in the plain environment |
| EnvCells.LuaState.Lookup | lua/src/lib.rs:1795-1835 | lookup through slots and cells is lookup in the plain environment |
| EnvCells.LuaState.CaptureCell | lua/src/lib.rs:1910-1954 | boxing a local changes no variable, and the cell stands for the variable the name denotes |
| EnvCells.LuaState.MakeClosure | lua/src/vm.rs:876-892 | a closure holds the variables its names denote now |
| EnvCells.LuaState.SetGlobal | lua/src/lib.rs:1956-1968 | creates or updates a global; beyond 64 nothing happens |
| EnvCells.LuaState.Step | lua/src/lib.rs:1673-1968 | one operation does what it does in the plain environment; it fails only without a frame or where a capacity it needs is used up, and, closures apart, always then |
| EnvCells.LuaState.Run | lua/src/lib.rs:1673-1968 | over any run of declarations, assignments, closures and lookups, every lookup answers as in an environment without cells; the run stops early only at an operation whose capacity is used up or that lacks a frame |
| EnvLaws.DeclareThenGet | lua/src/lib.rs:1673-1690 | a declared variable reads as its value iff its name is new to the block or the first of that name there has that value already; otherwise the first one answers |
| EnvLaws.SetTopThenGet | lua/src/lib.rs:1692-1739 | a variable set in the innermost block, or a fresh loop variable, reads as its value |
| EnvLaws.OthersKeep | lua/src/lib.rs:1673-1739 | names of other variables keep their answer across all three |
| EnvLaws.GetAfter | lua/src/lib.rs:1673-1835 | the same for a lookup behind the operation in a run |
| EnvLaws.ParameterSeen | lua/src/lib.rs:1643-1690 | a variable declared in a new function frame reads as its value |
| EnvLaws.BlockSees | lua/src/lib.rs:1795-1835 | an inner block sees the variables around it |
| EnvLaws.FunctionHides | lua/src/lib.rs:1795-1835 | a function without closure sees globals only |
| EnvLaws.BlockLeft | lua/src/lib.rs:1667-1671 | a block left, what it declared is gone and the rest is as before |
| EnvLaws.ClosureSees | lua/src/vm.rs:876-892 | a closure's function sees the captured variables as they are where it was made, and what it assigns is seen there |
| TableSpec.GetIsLookup | lua/src/eval.rs:4071-4080 | reading a table is looking up its finite map |
| TableSpec.SetIsPut | lua/src/eval.rs:4093-4130 | storing updates the ordered map: an existing key keeps its place, a new one goes last, nil removes and keeps the order of the rest; it succeeds iff the key is not nil and there is room |
| TableSpec.RunIsOrderedMap | lua/src/eval.rs:4093-4130 | after any sequence of stores keys are distinct, no key or value is nil, and the table is the insertion-ordered map those stores build |
| TableSpec.NextSteps | lua/src/eval.rs:953-987 | `next` goes from each pair to the one after it |
| TableSpec.RemovedKeyInvalid | lua/src/eval.rs:971-975 | going on from a removed key is an error |
| TableSpec.WalkIsFirst | lua/src/eval.rs:5481-5538 | access ends at the first table of the handler chain that has the key, at the first without handler, or when the steps run out |
| TableSpec.WalkEnds | lua/src/eval.rs:5481-5538 | conversely, wherever access ends, every table before it on the chain misses the key |
| TableSpec.MissesForever | lua/src/eval.rs:4056-4057 | a chain of more tables than exist goes on for ever |
| TableSpec.TooLongIffLoops | lua/src/eval.rs:4193-4200 | with at least 16 steps left, access fails as too long iff the chain loops without ever meeting the key |
| Tables.TableRec.RawGet | lua/src/eval.rs:4071-4080 | raw read of the slot array |
| Tables.TableRec.RawHas | lua/src/eval.rs:4082-4091 | raw presence test |
| Tables.TableRec.RawSet | lua/src/eval.rs:4093-4130 | the raw store in place, with its exact errors and the table unchanged on error |
| Tables.TableRec.NextAfter | lua/src/eval.rs:953-987 | `next` on the slot array |
| Tables.TableRec.Traverse | lua/src/eval.rs:953-987 | calling `next` from nil until it returns nil visits every pair exactly once, in order, and ends |
| Tables.LuaTables.NewTable | lua/src/eval.rs:5464-5479 | an empty table apart from the others, or the limit of 16 |
| Tables.LuaTables.Handle | lua/src/eval.rs:4132-4140 | the metatable's entry for an event |
| Tables.LuaTables.TGet | lua/src/eval.rs:5481-5509 | reads through the `__index` chain, restores the depth on every path and terminates on cyclic chains |
| Tables.LuaTables.TSet | lua/src/eval.rs:5511-5538 | changes only the table the `__newindex` chain leads to; over-deep chains change nothing; the depth is restored |
| Tables.LuaTables.SetMetatable | lua/src/eval.rs:1099-1124 | sets or removes a metatable unless the present one is protected |
| TableLaws.EventNames | lua/src/eval.rs:5481-5538 | the fields asked for are `__index`, `__newindex` and `__metatable` |
| TableLaws.ReadMeans | lua/src/eval.rs:5481-5509 | reading: the table's own value, else what the table under `__index` gives, else nil |
| TableLaws.WriteMeans | lua/src/eval.rs:5511-5538 | writing: into the table if it has the key or no `__newindex`, else into the table under it |
| TableSort.DefaultIsStrictWeak | lua/src/eval.rs:4898-4931 | the default order is a strict weak order on values of mixed types |
| TableSort.DefaultTies | lua/src/eval.rs:4898-4931 | nil, booleans, numbers and strings tie only when equal |
| TableSort.SortedPermutes | lua/src/eval.rs:3022-3058 | whatever the comparison says, the result is a permutation |
| TableSort.SortedInOrder | lua/src/eval.rs:3022-3058 | under a strict weak order the result is sorted |
| TableSort.SortedStable | lua/src/eval.rs:3022-3058 | ties keep their order |
| TableSort.InsertAt | lua/src/eval.rs:3023-3058 | one insertion in place |
| TableSort.Sort | lua/src/eval.rs:3012-3065 | the table ends up with the sorted values under the keys 1 to its length |
| TableLaws.DefaultMeans | lua/src/eval.rs:4898-4931 | numbers ascend, false is before true, strings are in dictionary order, and the kinds follow one another |
| TableLaws.StringsInOrder | lua/src/eval.rs:4919-4926 | a string is before another iff it is a proper prefix or has the smaller byte at the first difference |
| TableLaws.NumbersAscend | lua/src/eval.rs:3012-3065 | numbers are sorted in ascending order |
| Strings.PackRoundTrip | lua/src/lib.rs:194-201 | packing offset and length into a reference loses nothing |
| Strings.RangesApart | lua/src/lib.rs:1573-1583 | registered strings occupy disjoint ranges |
| Strings.RefsDistinct | lua/src/lib.rs:1551-1585 | references are equal iff the strings are |
| Strings.AddAllIs | lua/src/lib.rs:1551-1585 | the strings registered are those there were and those interned, each once |
| Strings.FewerFit | lua/src/lib.rs:1551-1585 | strings that fit still fit when fewer are interned |
| Strings.Arena.StrBytes | lua/src/lib.rs:1544-1549 | every reference issued reads back as its string |
| Strings.Arena.Intern | lua/src/lib.rs:1551-1585 | a known string gives its reference again, a new one is appended; fails exactly when a new string finds no register or no room |
| Strings.InternAll | lua/src/lib.rs:1551-1585 | over any run, references are equal iff the strings are, and all still read back at the end; the run completes iff all strings fit |
| Quote.QuoteString | lua/src/eval.rs:5096-5154 | the quoted text, with the exact condition on the room in the buffer |
| Quote.Lexer.LexString | lua/src/lex.rs:342-380 | a string literal is decoded into the buffer up to its closing quote, with every error |
| Quote.LexQuoted | lua/src/lex.rs:342-380 | reading a quotation gives the string back if it is readable and fits, else an error or more bytes |
| Quote.QuoteThenLex | lua/src/eval.rs:5096-5154 | a quoted string reads back as itself, ending behind its closing quote, iff it has at most 256 bytes, all printable, tab, newline or carriage return |
| Quote.QuotingMeans | lua/src/eval.rs:5096-5154 | how each byte is quoted |
| Quote.ReadingMeans | lua/src/lex.rs:342-380 | what each byte and each escape in a literal stands for |
| Checksum.FoldIs | common/src/dhcp.rs:38-41 | folding is addition modulo 65535, and zero only for zero |
| Checksum.ChecksumIs | common/src/dhcp.rs:26-42 | the checksum makes the sum a multiple of 65535, and is 65535 for an empty sum only |
| Checksum.IpChecksum | common/src/dhcp.rs:28-42 | the complement of the folded 32-bit sum; a panic exactly when the sum overflows under checks; the checksum of the buffer iff the sum fits, or (without checks) the carries lost are a multiple of 65535 and something is left |
| Checksum.SmallFits | common/src/dhcp.rs:29-37 | up to 131074 bytes never overflow |
| Checksum.LargeOverflows | common/src/dhcp.rs:29-37 | every greater length can |
| Checksum.VerifiesIff | common/src/dhcp.rs:99-100 | a header verifies iff its checksum field was zero, in one's complement, when the checksum was computed |
| Frames.HeaderVerifiesIff | common/src/dhcp.rs:86-100 | the same for the built IPv4 header |
| Frames.InlineChecksum | common/src/tftp.rs:229-238 | the sum written out in the TFTP frame builder is the checksum function's |
| Frames.BuildUdpFrame | common/src/tftp.rs:199-250 | every byte of the TFTP frame, the rest of the buffer untouched; a panic exactly when the payload does not fit |
| Frames.BuildDnsFrame | common/src/dns.rs:50-95 | every byte of the DNS frame |
| Frames.BuildDhcpFrame | common/src/dhcp.rs:79-117 | every byte of the DHCP frame, the unwritten fields coming from the caller's buffer |
| Frames.PayloadRoundTrip | common/src/tftp.rs:173-192 | the payload read from a built frame is the one put in, whatever follows the frame in the buffer |
| Dns.JoinSplit | common/src/dns.rs:23-36 | splitting at dots loses nothing |
| Dns.ReadEncoded | common/src/dns.rs:23-37 | length-prefixed labels read back |
| Dns.BuildQuery | common/src/dns.rs:14-46 | the whole query for an accepted name, zero for any other, a panic exactly for accepted names of more than 238 bytes |
| Dns.SkipName | common/src/dns.rs:188-204 | ends behind the name's zero byte or pointer, on every input |
| Dns.SkipAgrees | common/src/dns.rs:188-204 | where labels can be read, skipping ends where reading does |
| Dns.QueryRoundTrip | common/src/dns.rs:14-46 | the name read from a built query is the name, and skipping it from offset 12 lands on QTYPE |
| TftpWire.DecimalRoundTrip | common/src/tftp.rs:253-263 | a number's decimal digits read back as the number |
| TftpWire.ParseDecimal | common/src/tftp.rs:253-263 | the value of a string of digits, none if there is another byte; a machine word too small keeps the remainder, or panics under checks |
| TftpWire.ParseData | common/src/tftp.rs:143-157 | a DATA packet is exactly one its block number and data make up |
| TftpWire.DataPacketInjective | common/src/tftp.rs:143-157 | a packet determines block number and data |
| TftpWire.BuildAck | common/src/tftp.rs:160-164 | the four bytes of an acknowledgement |
| TftpWire.BuildRrq | common/src/tftp.rs:35-85 | the read request, its name cut at 128 bytes |
| TftpWire.RrqRoundTrip | common/src/tftp.rs:35-85 | a server reads the requested name back |
| TftpWire.ParseOack | common/src/tftp.rs:89-139 | the options of an acknowledgement, the last of a kind counting and a cut-off one dropped; a panic exactly when a number overflows under checks |
| TftpWire.OptionsRoundTrip | common/src/tftp.rs:103-136 | options read back as they were written |
| TftpWire.OackRoundTrip | common/src/tftp.rs:89-139 | an acknowledged block size is the block size taken |
| TftpTransfer.TftpDownload | native/src/net.rs:219-263 | request, receive loop and result over any sequence of datagrams |
| TftpTransfer.Transfer | native/src/net.rs:235-262 | the receive loop is the step function repeated until the transfer is done |
| TftpTransfer.ReceiveBlock | native/src/net.rs:248-260 | a block that fits extends the file by exactly itself and ends the transfer iff it is the last |
| TftpTransfer.BlockExtends | native/src/net.rs:257-259 | blocks tile the file; only the last is short, and it may be empty |
| TftpTransfer.StepKeeps | native/src/net.rs:235-260 | every step of client, server or stranger keeps the transfer's invariant and brings it closer to the end |
| TftpTransfer.RunKeeps | native/src/net.rs:235-260 | the same over any run |
| TftpTransfer.RunIsReceiveAll | native/src/net.rs:235-260 | the client of a run is the receive loop on the datagrams it took |
| TftpTransfer.DownloadCorrect | native/src/net.rs:219-263 | in every run against an RFC 1350 server, whatever other hosts send: when done, the total is the number of bytes written, and they are the file iff its blocks fit the receive buffer; until then some delivery is possible and their number is bounded |
| WireLaws.SumMeans | common/src/dhcp.rs:28-42 | the checksum adds big-endian words, an odd last byte as a high byte |
| WireLaws.FrameFields | common/src/tftp.rs:199-250 | where each field of a frame stands: destination before source, lengths, lifetime, protocol, addresses, ports, payload |
| WireLaws.Broadcasts | common/src/dhcp.rs:79-117 | the broadcast addresses |
| WireLaws.QueryMeans | common/src/dns.rs:14-46 | a query byte by byte: header, labels behind their lengths, zero, type A, class IN |
| WireLaws.SplitMeans | common/src/dns.rs:23-23 | names are cut at their dots |
| WireLaws.AcceptedMeans | common/src/dns.rs:23-28 | names of at most 242 bytes with labels of 1 to 63 are accepted |
| WireLaws.SkipMeans | common/src/dns.rs:188-204 | a name ends behind its zero byte or the two bytes of a pointer |
| WireLaws.PacketsMean | common/src/tftp.rs:35-164 | the TFTP packets byte by byte |
| WireLaws.DigitsMean | common/src/tftp.rs:253-263 | numbers are decimal, most significant digit first |
| WireLaws.OptionsMean | common/src/tftp.rs:124-136 | `blksize` and `tsize` set their value, other options nothing |
| WireLaws.ReceiveMeans | native/src/net.rs:235-260 | data is appended and acknowledged by its number; less than a block, 512 bytes at first, ends the transfer |
| Limits.InterpreterLimits | lua/src/lib.rs:130-175 | the interpreter's capacities |
| Limits.NetworkLimits | common/src/tftp.rs:1-32 | the sizes of the network code |

## Left out

- Floating point: `f`, `d` and `n` pack options, float keys, float comparison and float formatting; the model answers those pack options with an error of its own.
- The bytecode compiler, the virtual machine and coroutines, except the step that makes a closure.
- Functions as metamethods and as `gsub` replacements: a chain that reaches one ends in `CallsHandler`.
- The `table.insert`, `table.move` and `table.remove` family, which does not keep the map invariant on mixed tables.
- Frames, cells, tables' metatable links, scopes and nodes are sequences with the source's capacities rather than fixed arrays; stale contents behind a counter are not modelled.
- Tables.LuaTables.Handle: interning the event's name, which fails when the string arena is full, cannot fail in the model.
- Tables.LuaTables.SetMetatable: the same for the name `__metatable`.
- PackFormat.ParseFmtNum: numbers in a format are unbounded, and so are the positions computed from them; that a very long number or a very large size leaves the machine word is not modelled.
- PackFormat.NextOption: the source writes the reading of options out three times, in `pack`, `packsize` and `unpack`; the model reads them in one place, so that the three read the same options is by construction.
- PackCodec.Unpack: failing to intern an unpacked string.
- PackCodec.Pack: failing to intern the packed string.
- Gsub.GmatchState.Advance: failing to intern or push the values yielded.
- Gsub.StringGsub: function replacements, failing to intern the result or a table key, and number texts, which come in as bytes.
- TableSort.Sort: comparators that are not pure functions of the two values, or raise errors.
- TftpTransfer.DownloadCorrect: timeouts, retransmission, duplicates and failing sockets; the channel loses, repeats and reorders nothing, and strangers' packets may come in between; the client is built without overflow checks.
- GotoParser.ParseBody: works on a tree of blocks instead of tokens, so syntax errors are left out; scripts with nested functions are outside, because a nested function restarts the scopes, and with them the limits on captured names and functions; when several capacities are exceeded, which one is reported.
- GotoParser.Parser.ParseStat: expressions and other statements stand for the names they intern, the nodes they allocate and the locals they declare, in that order.
- GotoParser.Parser.ParseBlock: the same for the statements of the block.
- ExprParser.PrintAndParse: table and function literals, lexical errors and the recording of captured names; the expression stands outside any function, where recording a name cannot fail.
- The 32-bit BIOS build: machine words have 64 bits.
- Host callbacks, menus, DHCP option parsing, DNS answer parsing, hardware access and loading of other systems.
