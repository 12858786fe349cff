# Artichoke: verified models of its self-contained cores

Artichoke is a Ruby implementation in Rust on top of the C interpreter mruby. These Dafny
modules model five of its parts and prove what they are for.

* **`Kernel#Integer`** (`Numerals`, `Whitespace`, `RadixTable`, `IntParse`, `IntGrammar`,
  `IntLaws`, `IntSpelling`). The eight-phase parser is a method with the original's cursor, early returns and
  digit table. It is proved equal to a function, and the function is proved to accept exactly
  the texts of a grammar of syntax trees, to give each text its signed positional value, and to
  fail on everything else. Printing and parsing, whitespace, letter case, underscores and zeros
  after a prefix have their own laws, and the bytes, prefixes and digit groups are pinned by
  number.
* **State ownership across the C boundary** (`Ownership`). One boxed `State` moves between
  `Artichoke::state` and the user data pointers of `mrb_state` as Rust calls C and C calls Rust.
  C code is an arbitrary finite tree of calls, protected calls and raises of its own. The methods are
  mutually recursive over that tree, and at every hand-off the `State` is proved to have exactly
  one owner. A raise leaves C code exactly when it lies under no protected call.
* **Conventionally UTF-8 text** (`Utf8`, `Chars`, `CharIndex`, `CharConcat`, `StringEscape`,
  `Center`, `RegexpDebug`). UTF-8 decoding follows Tables 3-6 and 3-7 in section 3.9 of the Unicode
  Standard (the same form as section 4 of RFC 3629), with maximal subparts. The resumable
  iterators are classes whose remaining output is a function of their fields. Character counting
  and indexing, which work without building characters, are proved to agree with the iterator.
* **Source loading** (`LoadPath`, `Rubylib`, `LoadSources`). The path normaliser has a closed
  form. `require` and `load` run over the in-memory file system, with hooks and evaluated
  sources as arbitrary finite programs of further calls.
* **Hex and UUID text** (`Hex`, `Uuid`), against section 8 of RFC 4648 and section 4.4 of
  RFC 4122.

Classes and methods stand where the original updates fields, buffers or cursors. Each is tied to
a function of its inputs or its old state, and the lemmas are about those functions.

## Where the code and expectations part

* Zero has one spelling. `00`, `0x0` and `0_0` are refused, although leading zeros are said to be
  squeezed: squeezing leaves nothing to convert (`IntLaws.ZeroHasOneSpelling`).
* A trampoline's arena savepoint is never restored by Rust. `Guard` is dropped before
  `ArenaIndex`, so the restore finds no `State` and is skipped (`Ownership.RunTrampoline`, which
  counts restores). The early return of `unwrap_interpreter!` after a failed savepoint is never
  taken (`Ownership.EnterTrampoline`).
* `require` is meant to succeed once per feature. It does exactly when no `require` of the run
  finds its feature already loaded as it marks it (`LoadSources.SucceedsOnceExactly`), which a
  source that requires itself does (`LoadSources.CircularRequireSucceedsTwice`) and a run that
  re-enters no feature still being loaded never does (`LoadSources.SucceedsOncePerFeature`).
  In the same way a failed `require` leaves its feature unmarked exactly when the code it ran has
  not marked it (`LoadSources.RequireMarks`, `LoadSources.FailureCanLeaveMarked`).
* A feature loaded under its `.rb` alternate is required again if a hook is registered later at
  the bare path (`LoadSources.RequireAgain`, both directions; `LoadSources.LaterHookIsRequiredAgain`).
  `require` prefers a hook at the alternate to a plain source at the bare path, unlike source
  resolution (`LoadSources.RequireTargetsResolvedSource`, both directions;
  `LoadSources.AlternateHookOutranksSource`).
* The `RUBYLIB` loader does not read the file it resolves exactly when the first match cannot be
  read, as a directory cannot (`Rubylib.ReadAgreesWithResolve`,
  `Rubylib.DirectoryIsResolvedButNotRead`).
* `String::center` is documented to yield `width` bytes. It counts the text in characters and
  the padding in bytes, so that holds exactly when every character of the text is one byte
  (`Center.CentredByteLength`, `Center.TwoByteCharacterExceedsWidth`). The result is `width`
  characters long exactly when the padding written on either side consists of one-byte
  characters and no character forms across its borders with the text
  (`Center.CentredWidthExact`, `Center.WidePaddingMissesWidth`); ASCII padding always qualifies
  (`Center.CentredToWidth`). Both need the width still to fill to be less than `usize::MAX`: at
  that value the sum `padding_width + 1` wraps around, or panics where overflow is checked.
* `chars(a + b)` is `chars(a)` then `chars(b)` exactly when `b` does not complete an invalid
  sequence at the end of `a` (`CharConcat.SegmentsConcatExact`,
  `CharConcat.SegmentsConcatNeedNotHold`). A well-formed `a`, or a `b` that does not start with a
  continuation byte, is enough (`CharConcat.SegmentsConcat`, `CharConcat.SegmentsBeforeLead`).

## Model

| member | source | states |
|---|---|---|
| IntGrammar.ParseExact | scolapasta-int-parse/src/lib.rs:159-270 | `parse` returns `Ok(v)` exactly when the input is the text of a literal (whitespace, one sign, a prefix agreeing with the radix argument, digits of the radix with single interior underscores, not all zero, or a lone zero) worth `v`, and `v` fits an `i64` |
| IntGrammar.ParseFailsExact | scolapasta-int-parse/src/lib.rs:159-270 | `parse` fails exactly when every value the grammar gives the input lies outside `i64`; the error blames the radix exactly for ASCII, NUL-free inputs whose radix argument is refused |
| IntGrammar.DenotesOnce | scolapasta-int-parse/src/lib.rs:159-270 | under one radix argument an input has at most one value |
| IntGrammar.LiteralsAreUnambiguous | scolapasta-int-parse/src/lib.rs:187-270 | under one base a text has at most one syntax tree |
| IntGrammar.ParseOfLiteral | scolapasta-int-parse/src/lib.rs:170-270 | every literal parses to its value, or is refused when the value does not fit |
| IntGrammar.LiteralOfSignedMagnitude | scolapasta-int-parse/src/lib.rs:170-270 | whatever the parser gives a value is the text of a literal of that value |
| IntGrammar.SignedMagnitudeOfLiteral | scolapasta-int-parse/src/subject.rs:6-18 | a literal is ASCII without NUL, trims to its signed body, and has its value |
| IntParse.ParseInner | scolapasta-int-parse/src/lib.rs:159-270 | the phase-by-phase parser computes the function the grammar theorems are about |
| IntParse.ParseUnsigned | scolapasta-int-parse/src/lib.rs:187-270 | phases 5 to 8: the value of the unsigned literal with the sign applied when it fits, otherwise an error naming the input |
| IntParse.ParseDigits | scolapasta-int-parse/src/lib.rs:235-270 | after the prefix: succeeds exactly for a digit group that is not all zeros and whose signed value fits |
| IntParse.SqueezeZeros | scolapasta-int-parse/src/lib.rs:235-249 | skips only zeros and single interior underscores, stops at the first other byte, and refuses only misplaced underscores |
| IntParse.CollectDigits | scolapasta-int-parse/src/lib.rs:251-265 | collects exactly the digits, in order, after the sign, and refuses exactly bad digits and misplaced underscores |
| IntParse.NumericStringValue | scolapasta-int-parse/src/parser.rs:35-81 | the collected numeric string converts to the signed value of its digits |
| IntParse.LeadingZerosAreWorthNothing | scolapasta-int-parse/src/lib.rs:235-249 | squeezing zeros, with the underscores between them, keeps the value |
| IntParse.GroupAppend | scolapasta-int-parse/src/lib.rs:251-265 | one more digit shifts the value by one place; an underscore leaves it alone |
| Numerals.FromStrRadix | scolapasta-int-parse/src/lib.rs:267-270 | checked multiplication and addition, digit by digit, is exact: it fails only for a malformed number or a true value outside `i64` |
| Numerals.HornerPrefix | scolapasta-int-parse/src/lib.rs:267-270 | an overflow on a prefix is an overflow of the whole number |
| RadixTable.BuildRadixTable | scolapasta-int-parse/src/radix.rs:9-28 | every entry is the least radix its byte is a digit of, or the marker for none |
| RadixTable.TableTestIsDigitTest | scolapasta-int-parse/src/lib.rs:258-264 | the table test accepts a byte exactly when it is a digit below the radix |
| RadixTable.RadixArgumentExact | scolapasta-int-parse/src/radix.rs:118-251 | which radix arguments defer to the text, which fix the base, and which error each other one gets; no negation overflows |
| Whitespace.TrimRecovers | scolapasta-int-parse/src/whitespace.rs:1-20 | trimming recovers a core from any surrounding whitespace |
| Whitespace.TrimSplits | scolapasta-int-parse/src/whitespace.rs:1-20 | every input is whitespace around its trimmed core, or whitespace throughout, which trimming leaves as it is |
| Whitespace.SpacesExact | scolapasta-int-parse/src/whitespace.rs:1-20 | whitespace is bytes 9 to 13 and 32 |
| IntLaws.PrintParseRoundTrip | scolapasta-int-parse/src/lib.rs:159-270 | every `i64` parses back from its canonical text in every radix from 2 to 36, given as itself or negated, and in base 10 with no radix |
| IntLaws.WhitespaceIsIrrelevant | scolapasta-int-parse/src/lib.rs:170-171 | whitespace around any input changes neither value nor failure |
| IntLaws.CaseIsIrrelevant | scolapasta-int-parse/src/lib.rs:612-625 | inputs differing only in letter case have the same outcome |
| IntLaws.UnderscoreIsIrrelevant | scolapasta-int-parse/src/lib.rs:251-265 | one underscore between two digits of a literal keeps the outcome |
| IntLaws.ZerosAfterPrefixAreIrrelevant | scolapasta-int-parse/src/lib.rs:235-249 | zeros after a radix letter keep the outcome of a literal |
| IntLaws.ZeroHasOneSpelling | scolapasta-int-parse/src/lib.rs:226 | an input parses to zero exactly when it is one `0` with at most a sign and whitespace |
| IntLaws.DoubledZeroIsRefused | scolapasta-int-parse/src/parser.rs:75-80 | `00` reaches the conversion with nothing collected and is refused |
| IntSpelling.LetterRoundTrip | scolapasta-int-parse/src/lib.rs:187-230 | for every number but zero: sign, `0`, `b`, `o`, `d` or `x` in either case and its digits in radix 2, 8, 10 or 16 parse to it, with no radix and with that radix, and are refused under every other radix |
| IntSpelling.OctalRoundTrip | scolapasta-int-parse/src/lib.rs:227 | with no radix argument, sign, `0` and octal digits parse to the number |
| IntSpelling.ZeroPrefixRoundTrip | scolapasta-int-parse/src/lib.rs:224-228 | under a radix argument a leading zero keeps the value, except that it is refused exactly when the first digit reads as a prefix letter |
| IntSpelling.DigitGroupExact | scolapasta-int-parse/src/lib.rs:235-265 | the digit groups are exactly the non-empty runs of digits joined by single underscores and not all zero, and their value is that of the runs put together |
| IntSpelling.DigitValueExact | scolapasta-int-parse/src/radix.rs:9-28 | which bytes are digits, and their values |
| Ownership.WithFfiBoundary | artichoke-backend/src/artichoke.rs:67-109 | with the `State` present the same `State` comes back and `ud` is empty, or, when a raise skips the rest, `ud` is its only owner; without it nothing changes; the hand-offs in between are exactly those of the call tree |
| Ownership.ProtectedBoundary | artichoke-backend/src/sys/protect.rs:37-55 | a boundary around one protected call always returns with the `State` back in its frame, whatever the protected code raises |
| Ownership.EscapesExactly | artichoke-backend/src/artichoke.rs:67-109 | a raise leaves C code exactly when one of its raises, counted with their protection depth over the whole tree, is under no protected call |
| Ownership.OwnersFromTrace | artichoke-backend/src/artichoke.rs:67-109 | the owners of any call tree are the hand-offs of its flat trace that no raise skips, a raise skipping up to the end of the protected call around it |
| Ownership.FromUserData | artichoke-backend/src/ffi.rs:30-53 | takes the `State` out of `ud`, else out of `allocf_ud`; fails without change exactly when neither holds one |
| Ownership.DropGuard | artichoke-backend/src/artichoke.rs:230-240 | puts the `State` into `ud`; panics exactly when it is missing |
| Ownership.EnterTrampoline | artichoke-backend/src/macros.rs:41-55 | enters exactly when C holds a `State`, which then belongs to the new frame alone |
| Ownership.LeaveTrampoline | artichoke-backend/src/gc/arena.rs:150-160 | a frame that owns the `State` never panics on the way out, leaves `ud` the only owner, and restores no savepoint |
| Ownership.RunTrampoline | artichoke-backend/src/macros.rs:41-76 | called while C holds the `State`, always enters, never panics and leaves `ud` the only owner, whether it returns or raises |
| Ownership.InsideTrampoline | artichoke-backend/src/macros.rs:41-76 | once entered, a trampoline runs its body and leaves by its exit unless a raise has gone past it, with `ud` the only owner at the end |
| Ownership.RaiseException | artichoke-backend/src/error.rs:60-102 | `ud` is the only owner before either long jump, the jump with a value is taken exactly when one was built, and `ud` is the only owner as well when building it raises |
| Ownership.RunBody | artichoke-backend/src/artichoke.rs:67-109 | over any sequence of boundaries the frame keeps the `State`, or `ud` has it once a raise leaves the frame |
| Ownership.RunC | artichoke-backend/src/artichoke.rs:67-109 | any C call tree, with raises of its own, leaves the `State` with C alone, after exactly the hand-offs of the tree |
| Ownership.OwnersAlternate | artichoke-backend/src/artichoke.rs:67-109 | while C runs, owners alternate between `ud` and a frame above the running ones, ending in `ud`, raises included |
| Ownership.BodyOwnersAlternate | artichoke-backend/src/artichoke.rs:67-109 | seen from a Rust frame, they alternate and end in the frame unless a raise escapes it |
| Ownership.ThroughRawPointer | artichoke-backend/src/artichoke.rs:127-130 | going through a raw pointer and back gives an interpreter over the same `State` |
| Ownership.Close | artichoke-backend/src/artichoke.rs:133-174 | nothing is freed without the `State`; otherwise the parser, the C interpreter and the registries are freed in that order |
| Utf8.DecodeExact | scolapasta-string-escape/src/string.rs:36-38 | decoding finds a character exactly when the text starts with its encoding |
| Utf8.DecodeEncoded | scolapasta-string-escape/src/string.rs:36-38 | an encoded character is read back, with its length, whatever follows |
| Utf8.EncodeDecoded | scolapasta-string-escape/src/string.rs:36-48 | the bytes a decoded character consumed are its encoding |
| Utf8.EncodeBits | scolapasta-string-escape/src/string.rs:36-48 | the length, the marker bits and the value bits of every encoding, as in Table 3-6 of the Unicode Standard |
| Utf8.InvalidPrefixIsMaximal | spinoso-string/src/chars.rs:189-206 | an invalid prefix is one byte or the start of some character, and no longer prefix starts one |
| Utf8.DecodeAllExact | spinoso-string/src/codepoints.rs:193-212 | validation succeeds exactly on encodings of character sequences and inverts encoding |
| Chars.CharIterator.Next | spinoso-string/src/chars.rs:189-206 | yields the first remaining slice and keeps the rest, then `None` for ever |
| Chars.CharIterator.NextInvalid | spinoso-string/src/chars.rs:139-150 | takes one pending invalid byte |
| Chars.CharIterator.Decoded | spinoso-string/src/chars.rs:192-205 | one decoding step: a whole character, or the first invalid byte with the others kept |
| Chars.CharsPartition | spinoso-string/src/chars.rs:135-206 | in every encoding the slices are non-empty and concatenate to the input; in UTF-8 each is a well-formed character or one undecodable byte |
| CharIndex.SlicesExact | spinoso-string/src/chars.rs:185-206 | at the offset of every slice: the character that starts there, or one byte when none does |
| CharConcat.SegmentsConcatExact | spinoso-string/src/chars.rs:185-206 | slicing distributes over a concatenation exactly when the right text does not complete the last invalid sequence of the left one |
| CharConcat.CountConcatExact | spinoso-string/src/chars.rs:185-206 | concatenation never adds characters, and loses some exactly when one is completed |
| CharConcat.SegmentsConcat | spinoso-string/src/chars.rs:185-206 | slicing distributes after a well-formed text |
| CharConcat.SegmentsBeforeLead | spinoso-string/src/chars.rs:185-206 | slicing distributes before a text that does not start with a continuation byte |
| CharConcat.SegmentsConcatNeedNotHold | spinoso-string/src/chars.rs:185-206 | slicing does not distribute over a character cut in two |
| CharConcat.ResumeInsideCharacter | spinoso-string/src/chars.rs:185-206 | slicing from inside a character yields its remaining bytes one by one |
| Chars.WellFormedIffAllCharacters | spinoso-string/src/chars.rs:185-206 | an input is well-formed exactly when slicing meets no undecodable byte |
| Chars.CodepointsMatchChars | spinoso-string/src/codepoints.rs:189-249 | codepoints exist exactly when the character iterator meets no undecodable byte, and re-encode one for one to its slices |
| Chars.CodepointsAreBytes | spinoso-string/src/codepoints.rs:193-212 | in the other encodings every byte is its own codepoint |
| Chars.CodepointIterator.TryFrom | spinoso-string/src/codepoints.rs:193-212 | fails exactly on a UTF-8 string with an undecodable byte |
| Chars.CodepointIterator.Next | spinoso-string/src/codepoints.rs:239-249 | yields the first remaining codepoint, then `None` for ever |
| CharIndex.CharLen | spinoso-string/src/enc/utf8/mod.rs:142-161 | ASCII skipping, whole-string validation and chunked counting of leading bytes together count exactly the slices of the iterator |
| CharIndex.GetChar | spinoso-string/src/enc/utf8/mod.rs:210-283 | the scan returns the slice the iterator yields at that index, and nothing past the last |
| CharIndex.ScanForChar | spinoso-string/src/enc/utf8/mod.rs:239-282 | the same for the scanning loop, including an index that falls inside an invalid sequence |
| CharIndex.GetCharSliceUtf8 | spinoso-string/src/enc/utf8/mod.rs:287-453 | for a non-empty range, the bytes of the iterator's slices from start to end, cut off at the end of the string |
| CharIndex.ScanForStart | spinoso-string/src/enc/utf8/mod.rs:317-367 | finds an offset from which slicing yields exactly the characters after the first `start`, or fails exactly when there are fewer |
| CharIndex.ScanForEnd | spinoso-string/src/enc/utf8/mod.rs:369-452 | takes exactly the bytes of the first `count` characters |
| CharIndex.ResumeInsideInvalid | spinoso-string/src/enc/utf8/mod.rs:352-357 | slicing can resume inside an invalid sequence: what remains of it is still yielded byte by byte |
| CharIndex.ValidPartCounts | spinoso-string/src/enc/utf8/mod.rs:156-159 | the valid part of a chunk counts by leading bytes |
| CharIndex.StringGetChar | spinoso-string/src/lib.rs:1902-1910 | in every encoding, the character of the iterator at that index |
| CharIndex.StringGetCharSlice | spinoso-string/src/lib.rs:1944-2060 | in every encoding and for every range, the concatenation of the characters selected, empty for an inverted range, and nothing when the start is past the end |
| CharIndex.StringCharLen | spinoso-string/src/lib.rs:1860-1862 | in every encoding, the number of slices the iterator yields |
| CharIndex.AdjacentRangesJoin | spinoso-string/src/lib.rs:1944-2060 | adjacent ranges concatenate to the range over both |
| CharIndex.WholeRange | spinoso-string/src/lib.rs:1944-2060 | the range of all characters is the string |
| StringEscape.FormatDebugEscapeInto | scolapasta-string-escape/src/string.rs:30-59 | writes one piece per character or undecodable byte and stops at the first one the writer does not take whole; success means the whole escaped form is written, failure that a prefix is |
| StringEscape.WriteAllExact | scolapasta-string-escape/src/string.rs:39-55 | for any writer, success is exactly that every piece is taken whole, and what is written is always a prefix of the whole |
| StringEscape.WriteNext | scolapasta-string-escape/src/string.rs:36-56 | one decoding step writes the escapes of exactly the slices it yields, whatever the writer refuses |
| StringEscape.EscapeForm | scolapasta-string-escape/src/literal.rs:180-300 | by number: which bytes stay as they are, which get a two-byte escape with a letter, and which a four-byte hexadecimal one |
| StringEscape.UnescapeByte | scolapasta-string-escape/src/literal.rs:180-300 | the escape of any byte is undone, whatever text follows |
| StringEscape.UnescapeEscaped | scolapasta-string-escape/src/string.rs:30-59 | unescaping recovers every byte string from its escaped form |
| StringEscape.EscapedIsInjective | scolapasta-string-escape/src/string.rs:30-59 | different byte strings have different escaped forms |
| StringEscape.EscapedShape | scolapasta-string-escape/src/string.rs:30-59 | the output is well-formed UTF-8 without control bytes and without an unescaped quote |
| StringEscape.EscapedLeavesAlone | scolapasta-string-escape/src/string.rs:30-59 | a text is its own escaped form exactly when every slice is longer than a byte or a printable ASCII byte other than quote and backslash |
| Center.CenterIterator.Next | spinoso-string/src/center.rs:150-170 | yields the first remaining byte of left padding, text and right padding, then `None` for ever |
| Center.CenterIterator.NextMiddle | spinoso-string/src/center.rs:150-170 | the middle part yields every byte of every character in order |
| Center.CycleTake.Next | spinoso-string/src/center.rs:132-144 | the bounded cycle of the padding restarts where it should |
| Center.CenterText | spinoso-string/src/center.rs:132-170 | draining gives half the padding width rounded down, the text unchanged, and half rounded up with the wrap-around of `usize` |
| Center.PadsAddUp | spinoso-string/src/center.rs:132-135 | the right side gets the odd byte; at `usize::MAX` it gets none at all |
| Center.CentredLength | spinoso-string/src/center.rs:132-170 | for non-empty padding exactly the padding width is added unless it is `usize::MAX`, the text stands unchanged between the sides, and byte `i` of each side is byte `i` of the repeated padding |
| Center.CenterString | spinoso-string/src/lib.rs:1429-1441 | empty padding is an error whatever the width; otherwise the text is padded with the padding given, or with spaces, by as many bytes as it has characters too few |
| Center.CentredWidthExact | spinoso-string/src/lib.rs:1429-1441 | the result never has more than `width` characters, or those of the text when there are more, and has exactly that many if and only if the padding written is made of one-byte characters, none forms across a border with the text, and the padding width is not `usize::MAX` |
| Center.CountBetween | spinoso-string/src/center.rs:132-170 | the same for any text between two runs of bytes |
| Center.CentredToWidth | spinoso-string/src/lib.rs:1429-1441 | ASCII padding reaches the width, even next to undecodable bytes, exactly unless the padding width is `usize::MAX` |
| Center.CentredByteLength | spinoso-string/src/lib.rs:1378-1385 | the documented byte length holds exactly when every character of the text is one byte and the padding width is not `usize::MAX`; otherwise, short of `usize::MAX`, the result is longer |
| Center.TwoByteCharacterExceedsWidth | spinoso-string/src/lib.rs:1378-1385 | a two-byte character centred to width three takes four bytes |
| Center.WidePaddingMissesWidth | spinoso-string/src/lib.rs:1429-1441 | centering nothing in four with a two-byte character gives two characters |
| RegexpDebug.DebugIterator.Next | spinoso-regexp/src/debug.rs:135-182 | yields the first remaining character, then `None` for ever; the conversion of an invalid sequence never fails |
| RegexpDebug.DebugIterator.NextBody | spinoso-regexp/src/debug.rs:143-164 | one decoding step of the pattern: what is yielded and what stays pending make up its escaped form |
| RegexpDebug.DebugIterator.NextSuffix | spinoso-regexp/src/debug.rs:165-181 | the right delimiter once, then options, then encoding |
| RegexpDebug.DebugRegexp | spinoso-regexp/src/debug.rs:121-182 | draining gives slash, escaped body, slash, options, encoding |
| RegexpDebug.InvalidUtf8ByteSequence.TryFrom | scolapasta-string-escape/src/literal.rs:525-538 | accepts exactly up to three bytes and will yield their escapes in order |
| RegexpDebug.InvalidUtf8ByteSequence.Next | scolapasta-string-escape/src/literal.rs:540-551 | yields the first pending character, then `None` for ever |
| RegexpDebug.DebugBodyStep | spinoso-regexp/src/debug.rs:143-164 | the body of a pattern is the step for its first character or invalid sequence followed by the body of the rest, and no step is empty |
| RegexpDebug.DebugSliceForm | spinoso-regexp/src/debug.rs:143-164 | a character is shown as itself, a slash with a backslash before it, an undecodable byte in hexadecimal |
| RegexpDebug.BodyOfText | spinoso-regexp/src/debug.rs:143-164 | the body of a well-formed pattern is its characters with a backslash before every slash |
| RegexpDebug.StrCharsExact | spinoso-regexp/src/debug.rs:172-179 | options and encoding are shown character by character |
| RegexpDebug.SlashesAreEscaped | spinoso-regexp/src/debug.rs:143-164 | every slash of the body follows a backslash |
| LoadPath.AbsolutizeRelativeTo | artichoke-backend/src/load_path.rs:69-101 | the component loop computes the function the path theorems are about |
| LoadPath.AbsolutizeRelative | artichoke-backend/src/load_path.rs:69-101 | for a relative path and any directory, exactly the first max(0, n - k) of its n components below the root survive, k the largest excess of parent steps over names on any prefix, followed by the path's own surviving names |
| LoadPath.WalkClosedForm | artichoke-backend/src/load_path.rs:82-98 | the clamped stack agrees with matching parent steps from the end of the path |
| LoadPath.ScanIsLargestExcess | artichoke-backend/src/load_path.rs:82-98 | the unmatched parent steps are the largest excess over all prefixes |
| LoadPath.AbsolutizeAbsolute | artichoke-backend/src/load_path.rs:69-101 | an absolute path keeps its surviving names whatever the directory |
| LoadPath.AbsolutizeIsRooted | artichoke-backend/src/load_path.rs:69-101 | absolute input, or an absolute dot-free directory, gives a rooted path without dots |
| LoadPath.AbsolutizeIsIdempotent | artichoke-backend/src/load_path.rs:69-101 | normalising again, from any directory, changes nothing |
| LoadPath.AbsolutizeInTwoSteps | artichoke-backend/src/load_path.rs:69-101 | resolving a path in two steps changes nothing, for any directory |
| Rubylib.Rubylib.ResolveFile | artichoke-load-path/src/rubylib.rs:176-188 | the path below the first load path where that opens, or nothing when it opens below none; absolute paths never resolve |
| Rubylib.Rubylib.IsFile | artichoke-load-path/src/rubylib.rs:201-213 | holds exactly for a relative path that opens below some load path |
| Rubylib.Rubylib.ReadFile | artichoke-load-path/src/rubylib.rs:226-244 | the contents of the first match that can be read, passing over those that cannot, or an error exactly when there is none or the path is absolute |
| Rubylib.Rubylib.IsRequired | artichoke-load-path/src/rubylib.rs:256-268 | whether the identity of the file the path opens has been marked |
| Rubylib.Rubylib.MarkRequired | artichoke-load-path/src/rubylib.rs:289-308 | marks the identity of the file the path opens unless it is marked, changing nothing on error |
| Rubylib.OpenedExactly | artichoke-load-path/src/rubylib.rs:176-308 | what is opened is the path below the first load path where that opens, both directions, and an absolute path is itself |
| Rubylib.IsRequiredExactly | artichoke-load-path/src/rubylib.rs:256-268 | asking asks about the identity of that file |
| Rubylib.MarkExactly | artichoke-load-path/src/rubylib.rs:289-308 | marking marks that file by its identity, once, and an absolute path as itself |
| Rubylib.FirstOpen | artichoke-load-path/src/rubylib.rs:176-188 | the chosen index opens and none before it does |
| Rubylib.ReadAgreesWithResolve | artichoke-load-path/src/rubylib.rs:176-244 | reading chooses the resolved file exactly when that can be read, and never an earlier one |
| Rubylib.DirectoryIsResolvedButNotRead | artichoke-load-path/src/rubylib.rs:176-244 | a directory can resolve and still not be readable |
| Rubylib.MarkedOncePerIdentity | artichoke-load-path/src/rubylib.rs:289-308 | over any run, marking succeeds at most once per identity and never for one marked before |
| Rubylib.LoadedAreOpened | artichoke-load-path/src/rubylib.rs:289-308 | after any run, exactly the identities loaded before and those of all files opened are loaded |
| Rubylib.LoadedAreMarked | artichoke-load-path/src/rubylib.rs:289-308 | they are those loaded before and those marked successfully |
| Rubylib.IsRequiredAfterRun | artichoke-load-path/src/rubylib.rs:256-308 | after any run the answer is yes for exactly the identities marked before or during it |
| LoadSources.Loader.RequireSource | artichoke-backend/src/load.rs:113-168 | the branches, hooks, evaluation and marking of one `require` change the loader exactly as the function the run theorems are about |
| LoadSources.Loader.LoadSource | artichoke-backend/src/load.rs:84-111 | likewise for `load`: hook, then source |
| LoadSources.Loader.EvalSource | artichoke-backend/src/load.rs:163-167 | reads, evaluates and only then marks |
| LoadSources.Loader.ResolveSourcePath | artichoke-backend/src/load.rs:44-61 | the path itself, else its `.rb` alternate, else nothing |
| LoadSources.Loader.SourceIsFile | artichoke-backend/src/load.rs:63-82 | holds exactly when the path resolves |
| LoadSources.ResolvedIsFirstFile | artichoke-backend/src/load.rs:44-61 | a source resolves to the first of the path and its alternate that is a file, or to nothing |
| LoadSources.Loader.DefRbSourceFile | artichoke-backend/src/load.rs:33-42 | writes the source and keeps a hook already there |
| LoadSources.Loader.DefFileForType | artichoke-backend/src/load.rs:22-31 | sets the hook and keeps a source already there |
| LoadSources.WriteThenRead | artichoke-backend/src/load_path/memory.rs:355-373 | a source written is there afterwards, its path keeps its hook, and nothing else changes |
| LoadSources.DefinitionsTakeEffect | artichoke-backend/src/load.rs:22-42 | a source or hook defined while code runs is there for the rest of the run |
| LoadSources.RegisterThenHook | artichoke-backend/src/load_path/memory.rs:401-419 | a hook registered is there afterwards, its path keeps its source, and nothing else changes |
| LoadSources.KeyExact | artichoke-backend/src/load_path/memory.rs:320-345 | only what normalises to a path below `/artichoke/virtual_root/src/lib` exists, and then under that path |
| LoadSources.ExtensionIsReplaced | artichoke-backend/src/load.rs:54-58 | the extension is what follows the last dot, and setting another replaces it |
| LoadSources.ExtensionIsAppended | artichoke-backend/src/load.rs:54-58 | a name without a dot after its first byte has none, and setting one appends it |
| LoadSources.Loader.IsRequired | artichoke-backend/src/load_path/memory.rs:425-436 | membership of the normalised path, unknown outside the load path |
| LoadSources.Loader.HasExtension | artichoke-backend/src/load_path/memory.rs:379-390 | whether the normalised path has a hook |
| LoadSources.Loader.CanReadFile | artichoke-backend/src/load_path/memory.rs:320-345 | whether the normalised path names an entry below the load path |
| LoadSources.Loader.MarkRequired | artichoke-backend/src/load_path/memory.rs:447-465 | adds the normalised path, or fails without change outside the load path |
| LoadSources.MarkThenRequired | artichoke-backend/src/load_path/memory.rs:425-465 | a feature marked is required under every path that normalises to it, and no other is |
| LoadSources.SucceedsOnceExactly | artichoke-core/src/load.rs:233-236 | over any run, `require` succeeds at most once per feature exactly when none finds its feature already loaded as it marks it; the loaded features are those from the start and those of the successes, never both |
| LoadSources.SucceedsOncePerFeature | artichoke-core/src/load.rs:233-236 | a run that re-enters no feature still being loaded succeeds at most once per feature |
| LoadSources.RequireCounts | artichoke-backend/src/load.rs:113-168 | one `require` adds a repeated success exactly when it marks a feature already loaded or runs code that does |
| LoadSources.RequireAvoids | artichoke-backend/src/load.rs:113-168 | a `require` that re-enters nothing leaves the features still being loaded unmarked |
| LoadSources.CircularRequireSucceedsTwice | artichoke-backend/src/load.rs:163-167 | a source that requires itself succeeds twice |
| LoadSources.FailedReentryIsHarmless | artichoke-backend/src/load.rs:163-167 | when the inner evaluation fails it succeeds once |
| LoadSources.RequireMarks | artichoke-backend/src/load.rs:113-168 | the feature settled on is marked afterwards exactly when the call succeeded or the code it ran had marked it |
| LoadSources.RequireMarksExactlyOnSuccess | artichoke-backend/src/load.rs:113-168 | without re-entry, exactly when the call succeeded |
| LoadSources.FailureCanLeaveMarked | artichoke-backend/src/load.rs:163-167 | a source that requires itself and then fails is marked all the same |
| LoadSources.RequireOutcome | artichoke-backend/src/load.rs:113-168 | the exact condition of each outcome: a failing hook, a missing file, a failing evaluation, success; marking after a successful evaluation never fails |
| LoadSources.TargetIsFirstSettled | artichoke-backend/src/load.rs:113-150 | the first of the path and its alternate that is required or hooked decides a `require` |
| LoadSources.TargetIsFirstFile | artichoke-backend/src/load.rs:113-162 | without one, the first that is a file, or else the last |
| LoadSources.LoadOutcome | artichoke-backend/src/load.rs:84-111 | the exact condition of each outcome of a `load`, and the state it leaves |
| LoadSources.MissingIsNotLoaded | artichoke-backend/src/load.rs:98-107 | a path with nothing at it is never loaded, and nothing runs |
| LoadSources.RequireAgain | artichoke-backend/src/load.rs:113-168 | after a success, any later `require` of the path runs no code exactly when the path itself is loaded or has no hook |
| LoadSources.LaterHookIsRequiredAgain | artichoke-backend/src/load.rs:113-168 | a feature loaded from its alternate succeeds again once a hook appears at the bare path |
| LoadSources.RequireTargetsResolvedSource | artichoke-backend/src/load.rs:113-163 | `require` settles on the resolved source exactly unless the alternate's hook outranks a plain source at the bare path |
| LoadSources.AlternateHookOutranksSource | artichoke-backend/src/load.rs:113-163 | with a plain source at the bare path and a hook at the alternate, resolution and `require` choose differently |
| LoadSources.UnresolvedIsNotRequired | artichoke-backend/src/load.rs:113-168 | a path that resolves to nothing is an error and changes nothing |
| LoadSources.LoadMarksNothing | artichoke-backend/src/load.rs:84-111 | `load` changes no more than the code it runs, and never the loaded set by itself |
| LoadSources.RunExtends | artichoke-backend/src/load.rs:84-168 | no run unloads a feature or forgets a success |
| Hex.HexIterator.Len | scolapasta-hex/src/lib.rs:287-297 | the number of characters still to come, saturating |
| Hex.HexIterator.IsEmpty | scolapasta-hex/src/lib.rs:319-325 | holds exactly when no character is to come |
| Hex.HexIterator.Next | scolapasta-hex/src/lib.rs:349-361 | yields the first remaining character, then `None` for ever |
| Hex.TryEncodeInto | scolapasta-hex/src/lib.rs:167-175 | appends the encoding of all bytes exactly when room for its length can be reserved, and fails otherwise |
| Hex.DecodeExact | scolapasta-hex/src/lib.rs:431-458 | a text decodes to data exactly when it is the encoding of the data |
| Uuid.V4 | spinoso-securerandom/src/uuid.rs:27-70 | prints the stamped octets in groups of 4, 2, 2, 2 and 6; fails first when the random source does, then when no room can be reserved |
| Uuid.Stamp | spinoso-securerandom/src/uuid.rs:36-46 | changes octets 6 and 8 and no other |
| Uuid.V4DecodesToItsOctets | spinoso-securerandom/src/uuid.rs:33-69 | without its hyphens the text decodes to the random octets, except that the version and variant bits are set |

## Left out

- mruby itself: C code is a finite call tree; garbage collection, evaluation and the effects of C calls on values are not modelled.
- Long jumps: a raise passes by the rest of the Rust frames it leaves; that their destructors do not run is modelled for ownership only.
- The contents of hooks and Ruby sources: each run of one is an arbitrary finite program of further calls, not parsed from the bytes that are read.
- Native and hybrid file systems: `LoadSources` uses the in-memory one, `Rubylib` a host file system that does not change while it is used.
- Path strings: paths are component lists, so splitting a string, Windows prefixes and `normalize_slashes` are not modelled.
- Absolute paths in `Rubylib::mark_required`: modelled as in the code, which does not refuse them; no run theorem singles them out.
- `i64::from_str_radix`, `bstr::decode_utf8`, `find_non_ascii_byte`, `bytecount::num_chars`, `utf8_chunks` and the POSIX space test belong to other libraries: they are modelled from their definitions.
- CharIndex.SplitValid: validation and chunking are one recursive function instead of a vectorised scan.
- Center.CenterIterator.constructor: the width arithmetic wraps around, as without overflow checks; the panic of a build with them is not modelled.
- Hex.HexIterator.constructor: takes inputs of at most `usize::MAX` bytes, as every Rust slice is.
- Lookup tables of 256 literals: written as the branches that generate them, and the delimiter bits of the regexp iterator as two booleans.
- Double-ended iteration, size hints, `Hex::last`, `format_into` and `write_into`: they would add easy members.
- Error message text, string capacity, and allocation failure except where room is reserved for hexadecimal and UUID text.
- Random numbers: the sixteen octets of a UUID, or the failure to get them, are an input.
- Symbol interning, floating-point functions, the REPL and command line, and the class and module registries.
