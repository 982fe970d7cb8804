# Whitespace stripper core, modelled in Dafny

This project models the byte-level rewriting engine of the Astro whitespace stripper
(`crates/core`): the part that, given the source and its syntax tree, finds whitespace-only
gaps between adjacent named children of `document` and `element` nodes and rewrites them, and
the offset bookkeeping that a source map is built from.

- `strip.dfy` (module `Strip`, from `crates/core/src/strip.rs`): the trailing delimiters
  (`>`, `/>`, `-->`, `}`), `contains_blank_line`, the two rotations
  (`rotate_delim_over_gap`, which may steal one indentation byte, two for `/>`, and
  `rotate_prefix_over_gap`), the per-gap decision of `process_container_gaps` over abstract
  sibling records, `collect_edits` (walk, then an in-place sort of the edits) and `rewrite`
  (validate, then splice the edits into the source with a cursor). The main results: each
  rotation returns the segment's bytes permuted, with an offset vector that is a permutation
  and names the input byte every output byte came from; every gap edit is such a faithful
  rewrite; and the output of `rewrite` is as long as the source, with every output byte equal
  to the source byte its origin map names.
- `edit.dfy` (module `Edit`, from `crates/core/src/edit.rs`): the `Edit` record,
  `validate_edits` (Ok exactly when every structural check holds; otherwise the error of the
  first failing edit), line starts and byte-column conversion, `compute_output_spans` and
  `build_output_to_input_map`. The meaning of an ordered edit list is one splice function,
  `Apply`, generic over the element type: on bytes it is the output of `rewrite`, on origins
  (the identity map spliced with each edit's `output_byte_to_input_byte`) it is the
  output-to-input map, which `BuildOutputToInputMap` is proved to compute.
- `utf16.dfy` (module `Utf16`, from `crates/core/src/utf16.rs`): `Utf16Index` and
  `Utf16LineIndex`. Text is a sequence of Unicode scalar values whose bytes are its UTF-8
  encoding (RFC 3629); columns count UTF-16 code units (RFC 2781). The checkpointed
  conversions, which bisect the checkpoints and scan forward, are proved equal to the naive
  scans from the line start, and a byte on a character boundary survives the round trip
  through `(line, utf16 column)`.
- `unicode.dfy` (module `Unicode`): scalar values, their UTF-8 encoding and lengths, UTF-16
  lengths and Rust's `char::is_whitespace`, read on UTF-8 bytes.
- `basics.dfy` (module `Basics`): bytes, `Option`/`Result`, permutations of `0..n`, and the
  "last key at or before x" bisection used for every binary search of the source.

The syntax tree is an input. A container is given as its kind and its list of named children;
each child carries its kind, its byte range, the trailing delimiter `TrailingDelim::from_node`
infers for it and the opener prefix end `opener_prefix_end` computes for it. A walk of the
tree is the list of visited nodes in walk order; a failed parse is `None`.

## Model

| member | source | states |
|---|---|---|
| `Strip.TrailingDelim.Bytes` | crates/core/src/strip.rs:275-282 | the literal bytes of each delimiter are one to three bytes long |
| `Strip.DelimLengths` | crates/core/src/strip.rs:273-287 | `>` and `}` are one byte, `/>` two, `-->` three; at most one byte is stolen, two for `/>` |
| `Strip.HasWindow` | crates/core/src/strip.rs:370-373 | true exactly when the byte window occurs somewhere in the input |
| `Strip.ContainsBlankLine` | crates/core/src/strip.rs:366-377 | true exactly when the gap holds `\n\n` or `\r\n\r\n` at some position |
| `Strip.BlankLineWindows` | crates/core/src/strip.rs:366-377 | a blank line at i is an occurrence of one of the two windows at i |
| `Strip.BlankLineExamples` | crates/core/src/strip.rs:600-607 | `\n\n`, ` \n\n  ` and `\r\n\r\n` hold a blank line; `\n  \n` does not |
| `Strip.RotationOffsets` | crates/core/src/strip.rs:436-472 | the offsets of a three-part rotation, one per output byte, part by part |
| `Strip.Rotation` | crates/core/src/strip.rs:436-472 | the rotation offsets are a permutation of `0..n` and `z + y + x` is `x + y + z` read through them |
| `Strip.LastLineStart` | crates/core/src/strip.rs:398-404 | the start of the gap's last line: right after a `\n`, with no `\n` from there on |
| `Strip.FindLastLineStart` | crates/core/src/strip.rs:398-404 | the loop finds exactly that last line start |
| `Strip.TrailingBlanks` | crates/core/src/strip.rs:414-427 | the longest run, up to a cap, of spaces and tabs that ends the gap and stays within its last line |
| `Strip.TrailingBlanksUnique` | crates/core/src/strip.rs:414-427 | any count meeting those three conditions is that run's length |
| `Strip.StealCount` | crates/core/src/strip.rs:406-427 | at most one byte is stolen (two for `/>`), only spaces and tabs after the last `\n`, and as many as are there |
| `Strip.StealIndices` | crates/core/src/strip.rs:414-427 | the while loop collects the indices of exactly the stolen bytes, in ascending order |
| `Strip.DelimRotation` | crates/core/src/strip.rs:386-478 | the replacement is the stolen bytes, then the rest of the gap, then the delimiter, as long as `delim + gap` |
| `Strip.DelimRotationPermutes` | crates/core/src/strip.rs:386-478 | the offset vector is a permutation of `0..delim_len+gap_len` and output byte k is `(delim + gap)[offset[k]]` |
| `Strip.DelimRotationUnfolded` | crates/core/src/strip.rs:429-472 | the rotation as concatenation of the three parts and its offsets as the three-part rotation offsets |
| `Strip.EmitDelimRotation` | crates/core/src/strip.rs:436-462 | the three push loops of the stealing branch emit stolen bytes, rest of gap, delimiter with their offsets |
| `Strip.EmitGapThenDelim` | crates/core/src/strip.rs:464-477 | without stolen bytes the output is the gap then the delimiter, offsets `delim_len..` then `0..delim_len` |
| `Strip.RotateDelimOverGap` | crates/core/src/strip.rs:386-478 | the method returns exactly the delimiter rotation |
| `Strip.PrefixRotation` | crates/core/src/strip.rs:487-517 | the replacement is exactly `prefix + gap` |
| `Strip.PrefixRotationPermutes` | crates/core/src/strip.rs:487-517 | offsets `gap_len..gap_len+prefix_len` then `0..gap_len`, a permutation, each output byte read from `gap + prefix` |
| `Strip.RotatePrefixOverGap` | crates/core/src/strip.rs:487-517 | the method returns exactly the prefix rotation |
| `Strip.IndentedGap` | crates/core/src/strip.rs:398-427 | for gap `\n  ` the last line starts at 1; `>` and `-->` steal one byte and `/>` two |
| `Strip.RotateGtOverNewline` | crates/core/src/strip.rs:545-552 | `>` over `\n` gives `\n>` |
| `Strip.RotateGtOverIndent` | crates/core/src/strip.rs:554-561 | `>` over `\n  ` gives ` \n >` |
| `Strip.RotateCommentEndOverIndent` | crates/core/src/strip.rs:563-570 | `-->` over `\n  ` gives ` \n -->` |
| `Strip.RotateSlashGtOverIndent` | crates/core/src/strip.rs:572-580 | `/>` over `\n  ` gives `  \n/>` |
| `Strip.RotatePrefixOverIndent` | crates/core/src/strip.rs:591-598 | `{` over `\n  ` gives `{\n  ` with offsets `[3, 0, 1, 2]` |
| `Strip.Relocate` | crates/core/src/strip.rs:185-188 | segment offsets become input byte origins `Some(base + offset)` |
| `Strip.GapSkipped` | crates/core/src/strip.rs:158-173 | a gap the filters let through is non-empty and holds no ASCII byte other than ASCII white space |
| `Strip.RotationEdit` | crates/core/src/strip.rs:175-224 | a moved delimiter is replaced from its first byte to the gap end, with `moved_delim_len` its length; a moved opener prefix, only after a text node, from the gap start to the prefix end, with `moved_delim_len` 0 |
| `Strip.GapEdit` | crates/core/src/strip.rs:152-224 | a skipped gap yields no edit; an edit covers the whole gap, which holds no ASCII byte but white space |
| `Strip.GapEditSkips` | crates/core/src/strip.rs:158-173 | a gap that is empty, holds a character that is not white space, or holds a preserved blank line yields no edit; an edit only comes from a white-space gap |
| `Strip.GapEditFaithful` | crates/core/src/strip.rs:162-224 | every gap edit rearranges the bytes of its span, keeps the gap inside the span and ends with the moved delimiter (or, with no delimiter moved, starts with the moved prefix) |
| `Strip.DelimCase` | crates/core/src/strip.rs:175-200 | when the previous node ends with its delimiter, the delimiter rotation is chosen and is faithful |
| `Strip.PrefixCase` | crates/core/src/strip.rs:202-224 | otherwise any prefix rotation chosen is faithful |
| `Strip.DelimEditFaithful` | crates/core/src/strip.rs:177-197 | the delimiter edit spans `delim_pos..gap_end` and is a faithful rewrite of it |
| `Strip.PrefixEditFaithful` | crates/core/src/strip.rs:205-224 | the prefix edit spans `gap_start..prefix_end` and is a faithful rewrite of it |
| `Strip.ProcessGap` | crates/core/src/strip.rs:152-224 | the per-gap code yields exactly the gap edit |
| `Strip.GapEditsFaithful` | crates/core/src/strip.rs:142-226 | every edit of a container's gaps is faithful |
| `Strip.GapEdits` | crates/core/src/strip.rs:142-226 | a container with n named children yields fewer than n edits, at most one per gap |
| `Strip.GapEditsOfGaps` | crates/core/src/strip.rs:142-226 | every edit of a container is the edit of the gap between two adjacent named children |
| `Strip.GapOfEdit` | crates/core/src/strip.rs:148-157 | an edit of a container is its last gap's edit or the edit of an earlier gap |
| `Strip.GapEditsSnoc` | crates/core/src/strip.rs:148-224 | the edits of the first k + 1 children are those of the first k, then the edit of the gap before child k |
| `Strip.ProcessContainerGaps` | crates/core/src/strip.rs:142-226 | the loop over adjacent named children appends exactly the gap edits, in order |
| `Strip.WalkEditsFaithful` | crates/core/src/strip.rs:228-250 | every edit collected from containers of the walk is faithful |
| `Strip.WalkEdits` | crates/core/src/strip.rs:228-250 | every collected edit is a gap edit of a `document` or `element` node the walk visits |
| `Strip.KeyLeTotal` | crates/core/src/strip.rs:252-257 | the sort order compares any two edits |
| `Strip.KeyLeTrans` | crates/core/src/strip.rs:252-257 | the sort order is transitive |
| `Strip.SortEdits` | crates/core/src/strip.rs:252-257 | the in-place sort leaves the edits ordered by start, end, replacement length, and a permutation of the input |
| `Strip.ArrangementsAlign` | crates/core/src/strip.rs:252-257 | any two key-sorted orders of the same edits agree in start and end at every position, so the sort's tie order cannot move a range |
| `Strip.ArrangementValidFrom` | crates/core/src/edit.rs:191-243 | validation of one key-sorted order carries over to any other order of the same edits |
| `Strip.ArrangementsValidAlike` | crates/core/src/strip.rs:252-257 | every key-sorted order of the same edits is accepted or rejected by validation alike |
| `Strip.RemoveTiedWithFirst` | crates/core/src/strip.rs:252-257 | edits tied in key with the first sorted edit share its range, and removing one keeps the list sorted |
| `Strip.TailsSameEdits` | crates/core/src/strip.rs:252-257 | removing the same edit from two lists with the same edits leaves lists with the same edits |
| `Strip.SortedTail` | crates/core/src/strip.rs:252-257 | the tail of a key-sorted list is key-sorted |
| `Strip.CollectEdits` | crates/core/src/strip.rs:128-260 | the collected edits are the walk's gap edits, sorted, as a multiset |
| `Strip.ApplyEdits` | crates/core/src/strip.rs:103-119 | the cursor loop's output is the splice of the edits into the source |
| `Strip.ApplyStep` | crates/core/src/strip.rs:105-114 | one iteration appends `src[cursor..start]` and the replacement and moves the cursor to the edit's end |
| `Strip.ApplyTail` | crates/core/src/strip.rs:116-119 | the output ends with the source after the last edit |
| `Strip.ApplyEditsLength` | crates/core/src/strip.rs:103-119 | output length is `src.len + Σ(replacement.len − (end − start))`; no edits return the source |
| `Strip.LengthPreservingDelta` | crates/core/src/strip.rs:103-119 | edits whose replacements are as long as their spans change no length |
| `Strip.TracedConcat` | crates/core/src/strip.rs:103-119 | traced outputs concatenate |
| `Strip.TracedCopy` | crates/core/src/strip.rs:107-109 | a copied source run is traced by the identity origins |
| `Strip.EmittedTraced` | crates/core/src/strip.rs:103-114 | with faithful edits, every output byte so far is the source byte its origin names |
| `Strip.SpliceTraced` | crates/core/src/strip.rs:103-119 | with valid faithful edits, the output is as long as the source and each byte equals the source byte the origin map names |
| `Strip.Rewrite` | crates/core/src/strip.rs:90-123 | a failed parse is `ParseFailed` and nothing else is; for a parsed tree it succeeds exactly when the key-sorted gap edits pass validation, whichever order the sort gives tied edits, and otherwise reports the first violation of such an order; on success the edits are the sorted, valid gap edits, the output is their splice, as long as the source and traced by the origin map |
| `Edit.Emitted` | crates/core/src/strip.rs:103-114 | what the splice emits up to the last edit has length cursor plus delta |
| `Edit.Apply` | crates/core/src/strip.rs:103-119 | the splice is as long as the input plus the total delta |
| `Edit.EmittedPrefix` | crates/core/src/strip.rs:103-114 | the output so far only grows as edits are applied |
| `Edit.EmittedStep` | crates/core/src/strip.rs:105-114 | one edit appends the unedited run and its replacement |
| `Edit.ContentAt` | crates/core/src/edit.rs:339-353 | byte j of edit i's replacement sits at output `start_i + delta-so-far + j` |
| `Edit.CopiedAt` | crates/core/src/edit.rs:322-337 | an unedited input byte b sits at output `b + delta-so-far` |
| `Edit.CopiedTail` | crates/core/src/edit.rs:359-368 | an input byte after the last edit sits at output `b + total delta` |
| `Edit.CopiedInStep` | crates/core/src/strip.rs:105-109 | an unedited byte before edit i is copied into the output of the first i + 1 edits |
| `Edit.ApplyNoPieces` | crates/core/src/strip.rs:116-119 | an empty edit list splices to the input |
| `Edit.Identity` | crates/core/src/edit.rs:53 | unchanged bytes map one to one |
| `Edit.FirstOutOfBounds` | crates/core/src/edit.rs:228-238 | the first origin `Some(b)` with `b >= input_len`, all earlier ones in bounds |
| `Edit.Violation` | crates/core/src/edit.rs:197-240 | the reported error holds of the failing edit: its index for `InvalidEdit`, a start after its end, an end past the input, a length mismatch, a moved delimiter longer than the replacement, an origin out of bounds; an overlap names the previous edit and the failing one, which starts before the previous end |
| `Edit.ValidateEdits` | crates/core/src/edit.rs:191-243 | Ok exactly when every edit has `start <= end <= input_len`, starts at or after the previous end, has matching map length, `moved_delim_len <= replacement.len` and in-bounds origins; otherwise the error of the first failing edit, `OverlappingEdits` for an overlap |
| `Edit.ValidEditsDisjoint` | crates/core/src/edit.rs:191-243 | any two valid edits are ordered and disjoint |
| `Edit.ValidEditsArePieces` | crates/core/src/edit.rs:191-243 | valid edits are an ordered, in-bounds splice of bytes and of origins with the same delta |
| `Edit.OriginMap` | crates/core/src/edit.rs:312-371 | the origin map is as long as the expected output |
| `Edit.ComputeLineStarts` | crates/core/src/edit.rs:249-257 | starts with 0, strictly increasing, every later start follows a `\n` and every `\n` at i gives start `i+1` |
| `Edit.LineStartsUnique` | crates/core/src/edit.rs:245-257 | those conditions determine the line starts |
| `Edit.LineStartsExample` | crates/core/src/edit.rs:511-516 | the line starts of `a\nbc\nd\n` are `[0, 2, 5, 7]` |
| `Edit.LineColToByte` | crates/core/src/edit.rs:263-266 | None exactly for a line beyond the last |
| `Edit.ByteToLineCol` | crates/core/src/edit.rs:273-288 | the last line start at or before the byte and the distance from it; `(0, 0)` before the first start |
| `Edit.ByteToLineColAtLineStart` | crates/core/src/edit.rs:546-555 | every line start maps to `(line, 0)` |
| `Edit.ByteToLineColPastEnd` | crates/core/src/edit.rs:268-288 | a byte at or past the last start extends the final line |
| `Edit.LineColRoundTrip` | crates/core/src/edit.rs:263-288 | `line_col_to_byte(byte_to_line_col(b)) == Some(b)` |
| `Edit.ComputeOutputSpans` | crates/core/src/edit.rs:294-306 | `out_start_i = start_i + Σ_{j<i} delta_j`, `out_end_i = out_start_i + repl_i.len`, expected length `max(0, input_len + total delta)` |
| `Edit.SpansKeepGaps` | crates/core/src/edit.rs:294-306 | the output gap between consecutive spans equals the input gap between the edits |
| `Edit.SpanHoldsReplacement` | crates/core/src/edit.rs:294-306 | each output span holds exactly its edit's replacement in the spliced output |
| `Edit.EditsOfSpans` | crates/core/src/edit.rs:312-322 | the edits the spans refer to, in order |
| `Edit.CopyRun` | crates/core/src/edit.rs:324-337 | the unedited-run loop writes `Some(in_byte)` at consecutive outputs and stops when the output is full |
| `Edit.CopyOrigins` | crates/core/src/edit.rs:345-353 | the replacement loop writes the in-bounds origins of the edit and stops when the output is full |
| `Edit.BuildOutputToInputMap` | crates/core/src/edit.rs:312-371 | length `output_len`, every `Some(b)` has `b < input_len`, and for valid edits with consistent spans it is the origin map's prefix |
| `Edit.OriginRun` | crates/core/src/edit.rs:322-337 | in the origin map an unedited input byte b maps back to `Some(b)` |
| `Edit.OriginContent` | crates/core/src/edit.rs:339-353 | output byte j of an edit's span maps to `output_byte_to_input_byte[j]` |
| `Edit.OriginMapIsApply` | crates/core/src/edit.rs:312-371 | the origin map is the identity map spliced with the edits' origin vectors |
| `Edit.ShiftOfOrigins` | crates/core/src/edit.rs:294-306 | the shift after i edits is the origin splice's delta |
| `Unicode.EncodeChar` | crates/core/src/utf16.rs:142-147 | a scalar value encodes to `len_utf8` bytes, one ASCII byte below 0x80, else a lead byte and continuation bytes |
| `Unicode.EncodeLength` | crates/core/src/utf16.rs:142-147 | the encoding is as long as the sum of `len_utf8` |
| `Unicode.IsWhitespace` | crates/core/src/strip.rs:166 | in ASCII exactly tab, line feed, vertical tab, form feed, carriage return and space; every white-space character is at most three UTF-8 bytes and one UTF-16 unit |
| `Unicode.AllWhitespace` | crates/core/src/strip.rs:166 | bytes that are all white space hold no ASCII byte other than ASCII white space |
| `Unicode.U16AtMostU8` | crates/core/src/utf16.rs:332-347 | UTF-16 length never exceeds UTF-8 length and equals it for ASCII |
| `Unicode.WhitespaceLenOfChar` | crates/core/src/strip.rs:166 | the byte reader recognises an encoded white-space character and nothing else |
| `Unicode.AllWhitespaceOfEncode` | crates/core/src/strip.rs:166 | the gap test on bytes is true exactly when every character is white space |
| `Basics.LastAtOrBefore` | crates/core/src/utf16.rs:67-80 | the bisection finds the last key at or before x, 0 when there is none |
| `Basics.PartitionPoint` | crates/core/src/utf16.rs:67-80 | the bisection returns the number of sorted keys at or below x: all before it are at or below, all from it on above |
| `Utf16.CharsInBytes` | crates/core/src/utf16.rs:294-309 | the number of whole scalar values that fit in b bytes |
| `Utf16.CharsInUnits` | crates/core/src/utf16.rs:314-330 | the number of whole scalar values that fit in u UTF-16 units |
| `Utf16.BoundaryAt` | crates/core/src/utf16.rs:126-129 | the end of every prefix is a character boundary |
| `Utf16.AsciiBoundary` | crates/core/src/utf16.rs:44-54 | both sides of an ASCII byte such as `\n` or `\r` are character boundaries |
| `Utf16.ByteScan` | crates/core/src/utf16.rs:296-306 | the scan never counts more UTF-16 units than the line holds |
| `Utf16.NaiveByteToUtf16Col` | crates/core/src/utf16.rs:294-309 | the naive column never passes the line's UTF-16 length |
| `Utf16.NaiveUtf16ColToByte` | crates/core/src/utf16.rs:314-330 | the naive offset never passes the line's UTF-8 length, and a column at or past the line's UTF-16 length gives the line end |
| `Utf16.ByteScanIsPrefix` | crates/core/src/utf16.rs:294-309 | the naive byte scan sums the UTF-16 lengths of the whole scalar values within the budget |
| `Utf16.NaiveByteToUtf16ColIsPrefix` | crates/core/src/utf16.rs:294-309 | the naive column is the UTF-16 length of the values ending at or before the byte |
| `Utf16.NaiveUtf16ColToByteIsPrefix` | crates/core/src/utf16.rs:314-330 | the naive offset is the UTF-8 length of the values that fit in the column |
| `Utf16.ByteClampsToCharStart` | crates/core/src/utf16.rs:369-385 | a byte inside a character gives the column of the character's start |
| `Utf16.ColClampsToCharStart` | crates/core/src/utf16.rs:369-385 | a column inside a surrogate pair gives the byte of the code point's start |
| `Utf16.NaiveAtLineEnd` | crates/core/src/utf16.rs:228-230 | a byte or column at or past the line end gives the line's length |
| `Utf16.NaiveRoundTrip` | crates/core/src/utf16.rs:387-403 | a boundary byte's column converts back to the byte |
| `Utf16.AsciiLengths` | crates/core/src/utf16.rs:332-347 | an ASCII line has as many bytes and UTF-16 units as characters |
| `Utf16.AsciiColumns` | crates/core/src/utf16.rs:332-347 | on an ASCII line the UTF-16 column equals the byte column, clamped to the line |
| `Utf16.CheckpointChar` | crates/core/src/utf16.rs:142-161 | every checkpoint sits within the line |
| `Utf16.NewLineIndex` | crates/core/src/utf16.rs:129-168 | the checkpoints are at the start, every 64 scalar values and at the line end, each with its UTF-16 column |
| `Utf16.CheckpointCharIncreasing` | crates/core/src/utf16.rs:142-161 | checkpoints follow each other along the line |
| `Utf16.CheckpointCharEnds` | crates/core/src/utf16.rs:132-161 | the first checkpoint is at the line start and the last at the line end |
| `Utf16.CheckpointsShape` | crates/core/src/utf16.rs:129-168 | checkpoints start at `(start, 0)`, strictly increase in byte and column, and end at `(end, utf16_len)` |
| `Utf16.LineUtf16LenIsLength` | crates/core/src/utf16.rs:170-173 | `utf16_len` is the line's UTF-16 length |
| `Utf16.LineUtf16Len` | crates/core/src/utf16.rs:170-173 | with columns sorted, no checkpoint column exceeds it |
| `Utf16.CheckpointBytesSorted` | crates/core/src/utf16.rs:185-189 | the checkpoint bytes are sorted, as the binary search needs |
| `Utf16.CheckpointColsSorted` | crates/core/src/utf16.rs:233-240 | the checkpoint columns are sorted, as the binary search needs |
| `Utf16.CheckpointBytes` | crates/core/src/utf16.rs:185 | the key of checkpoint i is its byte |
| `Utf16.CheckpointCols` | crates/core/src/utf16.rs:235 | the key of checkpoint i is its column |
| `Utf16.CheckpointIsPrefix` | crates/core/src/utf16.rs:129-168 | every checkpoint is the byte and column of some prefix of the line |
| `Utf16.CheckpointAtOrBefore` | crates/core/src/utf16.rs:185-190 | the chosen checkpoint is at or before the clamped byte |
| `Utf16.CheckpointAtOrBeforeCol` | crates/core/src/utf16.rs:232-241 | the chosen checkpoint is at or before the target column |
| `Utf16.ScanToByte` | crates/core/src/utf16.rs:192-215 | the scan from a checkpoint gives the naive column |
| `Utf16.ByteToUtf16Col` | crates/core/src/utf16.rs:179-216 | 0 at or before the line start, else the naive scan of the line up to the byte clamped to the line end |
| `Utf16.ScanToCol` | crates/core/src/utf16.rs:243-263 | the scan from a checkpoint gives the naive offset |
| `Utf16.Utf16ColToByte` | crates/core/src/utf16.rs:224-264 | column 0 gives the start; otherwise the naive offset of the column clamped to `utf16_len` |
| `Utf16.LineEnd` | crates/core/src/utf16.rs:46-54 | a line ends within the text and before the next line's start |
| `Utf16.LineEndTerminator` | crates/core/src/utf16.rs:46-54 | the bytes between a line end and the next start are `\n` or `\r\n`, `\r\n` whenever a `\r` precedes the `\n`; the last line loses only a final `\r` |
| `Utf16.LineBoundaries` | crates/core/src/utf16.rs:40-55 | every line start and line end is a character boundary |
| `Utf16.LineText` | crates/core/src/utf16.rs:141 | the scalar values of a line have the UTF-8 length of its byte range |
| `Utf16.NewIndex` | crates/core/src/utf16.rs:44-62 | one line index per line start, each indexing its line |
| `Utf16.IndexLine` | crates/core/src/utf16.rs:46-55 | the index of line i spans from its start to its end |
| `Utf16.LineForByte` | crates/core/src/utf16.rs:64-80 | the largest i with `line_starts[i] <= byte`; beyond the text, the final line |
| `Utf16.OffsetOf` | crates/core/src/utf16.rs:98-101 | None exactly for a line index beyond the last line |
| `Utf16.PositionOf` | crates/core/src/utf16.rs:86-90 | the line starts at or before the byte and the column lies within the line's UTF-16 length |
| `Utf16.ByteToLineUtf16Col` | crates/core/src/utf16.rs:86-90 | the line for the byte and the naive column of the byte on it |
| `Utf16.ColToByteOnLine` | crates/core/src/utf16.rs:98-101 | the offset of a column on a known line |
| `Utf16.LineUtf16ColToByte` | crates/core/src/utf16.rs:98-101 | None for a line beyond the last, else the naive offset of the clamped column on that line |
| `Utf16.PositionRoundTrip` | crates/core/src/utf16.rs:387-424 | a boundary byte within its line converts to `(line, column)` and back to itself |
| `Utf16.BoundaryInLine` | crates/core/src/utf16.rs:387-424 | a boundary within a line is the end of a prefix of the line |
| `Utf16.LineRoundTrip` | crates/core/src/utf16.rs:387-424 | the position of such a byte converts back to it |
| `Utf16.CrlfExample` | crates/core/src/utf16.rs:426-441 | in `a🙂\r\nあb` bytes 5 and 6 are at `(0, 3)`, byte 7 at `(1, 0)`, and column 99 of line 0 gives byte 5 |
| `Utf16.EmojiExample` | crates/core/src/utf16.rs:369-385 | in `🙂` byte 2 is at `(0, 0)`, column 1 gives byte 0 and column 2 byte 4 |

## Left out

- Parsing with tree-sitter (`crates/core/src/parse.rs`), the walk with a tree cursor,
  `TrailingDelim::from_node` and `opener_prefix_end`: they query a syntax tree of a foreign
  library. The walk is given as a list of nodes and each child carries what those two
  functions compute for it.
- `create_sourcemap` and `add_anchor_create` (crates/core/src/edit.rs:64-177, 376-410): the
  source map serialisation through an external crate. The model stops at the output-to-input
  map and the output spans, which are what that code reads.
- `crates/core/src/alloc.rs`, the wasm glue, the command-line examples, the fixture tests
  and the fuzz targets: allocation, I/O and harnesses.
- Idempotence of stripping an already stripped output: it depends on how the parser reads
  the output.
- UTF-8 validation with `String::from_utf8(...).expect(...)` and `&str` slicing at character
  boundaries: text is a sequence of scalar values and bytes are its encoding.
- The probe order of the standard library's binary search: every binary search is modelled as
  a bisection for the last key at or before the target, which is unique for sorted keys.
- The error messages inside `StripError::InvalidEdit`: the model keeps the failing index and
  which check failed.
- `usize` and `isize` arithmetic is modelled on unbounded integers; offsets never come near
  the limits for texts that fit in memory.
- Edit.ComputeOutputSpans: requires the edits to be ordered (each starts at or after the
  previous end), since the source's `isize`-to-`usize` cast would wrap a negative output start.
- Edit.BuildOutputToInputMap: relates the map to the origin map only for valid edits whose
  spans come from `compute_output_spans` and an `output_len` no longer than the expected
  output; for other inputs it promises only the length and in-bounds origins.
- Utf16.NewIndex: requires every line start after the first to follow a `\n`, as
  `compute_line_starts` produces them; the source only asks for sorted starts on character
  boundaries beginning with 0.
- Strip.Rewrite: when edits with equal sort keys fail validation, the reported error is that
  of some key-sorted order of the gap edits, not necessarily the order `sort_by` produces:
  `Strip.SortEdits` is specified as a sorted permutation, and its stability is not stated.
