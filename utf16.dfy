/**
 * UTF-16 column index: conversion between absolute byte offsets into UTF-8 text (RFC 3629) and
 * (line, column) positions whose column counts UTF-16 code units (RFC 2781; a scalar value
 * above the Basic Multilingual Plane counts 2). Each line keeps sparse checkpoints, one every
 * 64 scalar values, and a conversion scans forward from the nearest checkpoint; the model
 * proves that this equals a scan from the line start.
 *
 * The text is held as its scalar values; its bytes are `Encode(text)`. Byte offset b is a
 * character boundary when it is the encoded length of some prefix of the text.
 */
module Utf16 {
  import opened Basics
  import opened Unicode

  // ---------------------------------------------------------------------------------------
  // Prefixes and boundaries
  // ---------------------------------------------------------------------------------------

  lemma PrefixCons(s: seq<Scalar>, k: nat)
    requires 0 < k <= |s|
    ensures U8(s[..k]) == Utf8Len(s[0]) + U8(s[1..][..k - 1])
    ensures U16(s[..k]) == Utf16Len(s[0]) + U16(s[1..][..k - 1])
  {
    assert s[..k][1..] == s[1..][..k - 1];
  }

  /** Number of leading scalar values of s whose UTF-8 encoding fits in b bytes. */
  function CharsInBytes(s: seq<Scalar>, b: nat): (r: nat)
    ensures r <= |s| && U8(s[..r]) <= b
    ensures r < |s| ==> U8(s[..r + 1]) > b
  {
    if s == [] then 0
    else if Utf8Len(s[0]) > b then
      PrefixCons(s, 1);
      0
    else
      var r := 1 + CharsInBytes(s[1..], b - Utf8Len(s[0]));
      PrefixCons(s, r);
      if r < |s| then PrefixCons(s, r + 1); r else r
  }

  /** Number of leading scalar values of s whose UTF-16 encoding fits in u code units. */
  function CharsInUnits(s: seq<Scalar>, u: nat): (r: nat)
    ensures r <= |s| && U16(s[..r]) <= u
    ensures r < |s| ==> U16(s[..r + 1]) > u
  {
    if s == [] then 0
    else if Utf16Len(s[0]) > u then
      PrefixCons(s, 1);
      0
    else
      var r := 1 + CharsInUnits(s[1..], u - Utf16Len(s[0]));
      PrefixCons(s, r);
      if r < |s| then PrefixCons(s, r + 1); r else r
  }

  /** The prefix lengths in bytes are strictly increasing, so they determine the prefix. */
  lemma PrefixOrder(s: seq<Scalar>, i: nat, j: nat)
    requires i <= |s| && j <= |s|
    ensures U8(s[..i]) <= U8(s[..j]) ==> i <= j
    ensures U16(s[..i]) <= U16(s[..j]) ==> i <= j
  {
    if j < i {
      U16Monotone(s, j, i);
    }
  }

  lemma CharsInBytesUnique(s: seq<Scalar>, b: nat, k: nat)
    requires k <= |s| && U8(s[..k]) <= b
    requires k < |s| ==> U8(s[..k + 1]) > b
    ensures CharsInBytes(s, b) == k
  {
    var r := CharsInBytes(s, b);
    if r < k {
      PrefixOrder(s, k, r + 1);
    } else if r > k {
      PrefixOrder(s, r, k + 1);
    }
  }

  lemma CharsInUnitsUnique(s: seq<Scalar>, u: nat, k: nat)
    requires k <= |s| && U16(s[..k]) <= u
    requires k < |s| ==> U16(s[..k + 1]) > u
    ensures CharsInUnits(s, u) == k
  {
    var r := CharsInUnits(s, u);
    if r < k {
      PrefixOrder(s, k, r + 1);
    } else if r > k {
      PrefixOrder(s, r, k + 1);
    }
  }

  /** Byte offset b of s is a character boundary (the end of a whole prefix of scalar values). */
  ghost predicate Boundary(s: seq<Scalar>, b: nat) {
    U8(s[..CharsInBytes(s, b)]) == b
  }

  /** The end of the k-th scalar value is a boundary, and the prefix ending there has k values. */
  lemma BoundaryAt(s: seq<Scalar>, k: nat)
    requires k <= |s|
    ensures CharsInBytes(s, U8(s[..k])) == k && Boundary(s, U8(s[..k]))
  {
    if k < |s| {
      PrefixStep(s, k);
    }
    CharsInBytesUnique(s, U8(s[..k]), k);
  }

  lemma UnitsAt(s: seq<Scalar>, k: nat)
    requires k <= |s|
    ensures CharsInUnits(s, U16(s[..k])) == k
  {
    if k < |s| {
      PrefixStep(s, k);
    }
    CharsInUnitsUnique(s, U16(s[..k]), k);
  }

  /** A byte below 0x80 in UTF-8 text is a whole one-byte scalar value. */
  lemma {:induction false} AsciiByteAt(text: seq<Scalar>, p: nat) returns (k: nat)
    requires p < |Encode(text)| && Encode(text)[p] < 0x80
    ensures k < |text| && U8(text[..k]) == p && Utf8Len(text[k]) == 1
  {
    var e := EncodeChar(text[0]);
    assert Encode(text) == e + Encode(text[1..]);
    if p < |e| {
      assert Encode(text)[p] == e[p];
      k := 0;
    } else {
      var k' := AsciiByteAt(text[1..], p - |e|);
      k := k' + 1;
      PrefixCons(text, k);
      assert text[1..][k'] == text[k];
    }
  }

  /** Offsets before and after an ASCII byte are character boundaries. */
  lemma AsciiBoundary(text: seq<Scalar>, p: nat)
    requires p < |Encode(text)| && Encode(text)[p] < 0x80
    ensures Boundary(text, p) && Boundary(text, p + 1)
  {
    var k := AsciiByteAt(text, p);
    BoundaryAt(text, k);
    PrefixStep(text, k);
    BoundaryAt(text, k + 1);
  }

  lemma SliceU8(s: seq<Scalar>, i: nat, j: nat)
    requires i <= j <= |s|
    ensures U8(s[i..j]) == U8(s[..j]) - U8(s[..i])
  {
    SliceEncode(s, i, j);
  }

  lemma SliceEncode(s: seq<Scalar>, i: nat, j: nat)
    requires i <= j <= |s|
    ensures U8(s[i..j]) == U8(s[..j]) - U8(s[..i])
    ensures Encode(s[..j]) == Encode(s[..i]) + Encode(s[i..j])
  {
    assert s[..j] == s[..i] + s[i..j];
    EncodeAppend(s[..i], s[i..j]);
  }

  /** The scalar values of the text between two boundaries (`&s[start..end]`). */
  function LineChars(text: seq<Scalar>, start: nat, end: nat): (line: seq<Scalar>)
    requires start <= end && Boundary(text, start) && Boundary(text, end)
    ensures U8(line) == end - start
  {
    var i := CharsInBytes(text, start);
    var j := CharsInBytes(text, end);
    PrefixOrder(text, i, j);
    SliceU8(text, i, j);
    text[i..j]
  }

  /** The line's scalar values encode exactly the bytes between its boundaries. */
  lemma LineCharsEncode(text: seq<Scalar>, start: nat, end: nat)
    requires start <= end && Boundary(text, start) && Boundary(text, end)
    ensures end <= |Encode(text)| && Encode(LineChars(text, start, end)) == Encode(text)[start..end]
  {
    var i := CharsInBytes(text, start);
    var j := CharsInBytes(text, end);
    PrefixOrder(text, i, j);
    SliceEncode(text, i, j);
    SliceEncode(text, j, |text|);
    assert text[..|text|] == text;
    EncodeLength(text);
    EncodeLength(text[..i]);
    EncodeLength(text[..j]);
  }

  /**
   * The scalar value whose encoding starts at byte rel of the line
   * (`line[rel..].chars().next().unwrap()`).
   */
  function DecodeAt(line: seq<Scalar>, rel: nat): Scalar
    requires rel < U8(line)
  {
    var k := CharsInBytes(line, rel);
    assert line[..|line|] == line;
    line[k]
  }

  // ---------------------------------------------------------------------------------------
  // The naive scans of the source's tests
  // ---------------------------------------------------------------------------------------

  /** The scan of naive_byte_to_utf16_col: add each scalar value that ends within budget bytes. */
  function ByteScan(line: seq<Scalar>, budget: nat): (col: nat)
    ensures col <= U16(line)
  {
    if line == [] then 0
    else if Utf8Len(line[0]) <= budget then Utf16Len(line[0]) + ByteScan(line[1..], budget - Utf8Len(line[0]))
    else 0
  }

  /** The scan adds up exactly the whole scalar values that fit in the budget. */
  lemma {:induction false} ByteScanIsPrefix(line: seq<Scalar>, budget: nat)
    ensures ByteScan(line, budget) == U16(line[..CharsInBytes(line, budget)])
  {
    if line == [] {
    } else if Utf8Len(line[0]) <= budget {
      var n := Utf8Len(line[0]);
      ByteScanIsPrefix(line[1..], budget - n);
      var r := CharsInBytes(line, budget);
      assert r > 0 && r - 1 == CharsInBytes(line[1..], budget - n);
      PrefixCons(line, r);
    } else {
      CharsInBytesUnique(line, budget, 0);
      PrefixCons(line, 1);
    }
  }

  /**
   * naive_byte_to_utf16_col: the UTF-16 length of the whole scalar values ending at or before
   * the byte offset rel, clamped to the line.
   */
  function NaiveByteToUtf16Col(line: seq<Scalar>, rel: nat): (col: nat)
    ensures col <= U16(line)
  {
    ByteScan(line, Min(rel, U8(line)))
  }

  /** The naive column counts the whole scalar values that end at or before rel. */
  lemma NaiveByteToUtf16ColIsPrefix(line: seq<Scalar>, rel: nat)
    ensures NaiveByteToUtf16Col(line, rel) == U16(line[..CharsInBytes(line, Min(rel, U8(line)))])
    ensures NaiveByteToUtf16Col(line, rel) == U16(line[..CharsInBytes(line, rel)])
  {
    ByteScanIsPrefix(line, Min(rel, U8(line)));
    if rel > U8(line) {
      assert line[..|line|] == line;
      CharsInBytesUnique(line, rel, |line|);
      CharsInBytesUnique(line, U8(line), |line|);
    }
  }

  /**
   * naive_utf16_col_to_byte: advance over whole scalar values while the UTF-16 column does not
   * pass col, stopping once it equals col.
   */
  function NaiveUtf16ColToByte(line: seq<Scalar>, col: nat): (rel: nat)
    ensures rel <= U8(line)
    ensures col >= U16(line) ==> rel == U8(line)
  {
    if line == [] then 0
    else
      var u := Utf16Len(line[0]);
      if u > col then 0
      else if u == col then
        assert line[1..] != [] ==> U16(line[1..]) > 0;
        Utf8Len(line[0])
      else Utf8Len(line[0]) + NaiveUtf16ColToByte(line[1..], col - u)
  }

  /** The naive offset is the byte length of the whole scalar values that fit in col units. */
  lemma {:induction false} NaiveUtf16ColToByteIsPrefix(line: seq<Scalar>, col: nat)
    ensures NaiveUtf16ColToByte(line, col) == U8(line[..CharsInUnits(line, col)])
  {
    if line == [] {
    } else {
      var u := Utf16Len(line[0]);
      if u > col {
        CharsInUnitsUnique(line, col, 0);
        PrefixCons(line, 1);
      } else if u == col {
        PrefixCons(line, 1);
        if |line| > 1 { PrefixCons(line, 2); }
        CharsInUnitsUnique(line, col, 1);
      } else {
        NaiveUtf16ColToByteIsPrefix(line[1..], col - u);
        var r := CharsInUnits(line, col);
        assert r > 0 && r - 1 == CharsInUnits(line[1..], col - u);
        PrefixCons(line, r);
      }
    }
  }

  /**
   * A scan from a boundary k that stopped (the clamp m reached, the line end reached, or the
   * next value not fitting before m) agrees with the naive scan.
   */
  lemma ByteScanStopsAt(line: seq<Scalar>, rel: nat, k: nat)
    requires k <= |line| && U8(line[..k]) <= Min(rel, U8(line))
    requires || U8(line[..k]) == Min(rel, U8(line)) || U8(line[..k]) >= U8(line)
             || (k < |line| && U8(line[..k]) + Utf8Len(line[k]) > Min(rel, U8(line)))
    ensures NaiveByteToUtf16Col(line, rel) == U16(line[..k])
  {
    assert line[..|line|] == line;
    PrefixOrder(line, |line|, k);
    if k < |line| {
      PrefixStep(line, k);
    }
    CharsInBytesUnique(line, Min(rel, U8(line)), k);
    NaiveByteToUtf16ColIsPrefix(line, rel);
  }

  /** The same for the scan over UTF-16 columns, stopping at the target column u. */
  lemma ColScanStopsAt(line: seq<Scalar>, u: nat, k: nat)
    requires k <= |line| && U16(line[..k]) <= u
    requires || U16(line[..k]) == u || U8(line[..k]) >= U8(line)
             || (k < |line| && U16(line[..k]) + Utf16Len(line[k]) > u)
    ensures NaiveUtf16ColToByte(line, u) == U8(line[..k])
  {
    assert line[..|line|] == line;
    PrefixOrder(line, |line|, k);
    if k < |line| {
      PrefixStep(line, k);
    }
    CharsInUnitsUnique(line, u, k);
    NaiveUtf16ColToByteIsPrefix(line, u);
  }

  /** One step of either scan: the value after boundary k is decoded there and advances both lengths. */
  lemma ScanStep(line: seq<Scalar>, k: nat)
    requires k <= |line| && U8(line[..k]) < U8(line)
    ensures k < |line| && DecodeAt(line, U8(line[..k])) == line[k]
    ensures U8(line[..k + 1]) == U8(line[..k]) + Utf8Len(line[k])
    ensures U16(line[..k + 1]) == U16(line[..k]) + Utf16Len(line[k])
  {
    assert line[..|line|] == line;
    PrefixOrder(line, |line|, k);
    PrefixStep(line, k);
    BoundaryAt(line, k);
  }

  /** A byte offset inside the encoding of scalar value k clamps to the start of that value. */
  lemma ByteClampsToCharStart(line: seq<Scalar>, k: nat, rel: nat)
    requires k < |line| && U8(line[..k]) <= rel < U8(line[..k + 1])
    ensures NaiveByteToUtf16Col(line, rel) == U16(line[..k])
  {
    CharsInBytesUnique(line, rel, k);
    NaiveByteToUtf16ColIsPrefix(line, rel);
  }

  /** A column inside the surrogate pair of scalar value k clamps to the start of that value. */
  lemma ColClampsToCharStart(line: seq<Scalar>, k: nat, col: nat)
    requires k < |line| && U16(line[..k]) <= col < U16(line[..k + 1])
    ensures NaiveUtf16ColToByte(line, col) == U8(line[..k])
  {
    CharsInUnitsUnique(line, col, k);
    NaiveUtf16ColToByteIsPrefix(line, col);
  }

  /** Offsets at or past the line end give the line's UTF-16 length, and back. */
  lemma NaiveAtLineEnd(line: seq<Scalar>, rel: nat, col: nat)
    requires rel >= U8(line) && col >= U16(line)
    ensures NaiveByteToUtf16Col(line, rel) == U16(line)
    ensures NaiveUtf16ColToByte(line, col) == U8(line)
  {
    assert line[..|line|] == line;
    CharsInBytesUnique(line, rel, |line|);
    CharsInUnitsUnique(line, col, |line|);
    NaiveByteToUtf16ColIsPrefix(line, rel);
    NaiveUtf16ColToByteIsPrefix(line, col);
  }

  /** Within a line, a column computed from a character boundary maps back to that boundary. */
  lemma NaiveRoundTrip(line: seq<Scalar>, k: nat, rel: nat)
    requires k <= |line| && rel == U8(line[..k])
    ensures NaiveByteToUtf16Col(line, rel) <= U16(line)
    ensures NaiveUtf16ColToByte(line, NaiveByteToUtf16Col(line, rel)) == rel
  {
    BoundaryAt(line, k);
    UnitsAt(line, k);
    assert line[..|line|] == line;
    U16Monotone(line, k, |line|);
    NaiveByteToUtf16ColIsPrefix(line, rel);
    NaiveUtf16ColToByteIsPrefix(line, NaiveByteToUtf16Col(line, rel));
  }

  lemma {:induction false} AsciiLengths(s: seq<Scalar>)
    requires forall k :: 0 <= k < |s| ==> s[k] < 0x80
    ensures U8(s) == |s| && U16(s) == |s|
  {
    if s != [] {
      assert forall k :: 0 <= k < |s[1..]| ==> s[1..][k] == s[k + 1];
      AsciiLengths(s[1..]);
    }
  }

  /** On an ASCII-only line the UTF-16 column is the byte column, clamped to the line. */
  lemma AsciiColumns(line: seq<Scalar>, rel: nat, col: nat)
    requires forall k :: 0 <= k < |line| ==> line[k] < 0x80
    ensures NaiveByteToUtf16Col(line, rel) == Min(rel, |line|)
    ensures NaiveUtf16ColToByte(line, col) == Min(col, |line|)
  {
    var m := Min(rel, |line|);
    var n := Min(col, |line|);
    AsciiLengths(line[..m]);
    AsciiLengths(line[..n]);
    if m < |line| {
      AsciiLengths(line[..m + 1]);
    }
    if n < |line| {
      AsciiLengths(line[..n + 1]);
    }
    CharsInBytesUnique(line, rel, m);
    CharsInUnitsUnique(line, col, n);
    NaiveByteToUtf16ColIsPrefix(line, rel);
    NaiveUtf16ColToByteIsPrefix(line, col);
  }

  // ---------------------------------------------------------------------------------------
  // Utf16LineIndex
  // ---------------------------------------------------------------------------------------

  /** Absolute byte offset and the UTF-16 column at it. */
  datatype Checkpoint = Checkpoint(byte: nat, utf16Col: nat)

  /** The index of one line `s[start..end]`. */
  datatype LineIndex = LineIndex(start: nat, end: nat, checkpoints: seq<Checkpoint>)

  /** CHECKPOINT_STRIDE_CHARS */
  const Stride: nat := 64

  /** The checkpoint after the first k scalar values of a line starting at byte start. */
  function CheckpointAt(line: seq<Scalar>, start: nat, k: nat): Checkpoint
    requires k <= |line|
  {
    Checkpoint(start + U8(line[..k]), U16(line[..k]))
  }

  /** How many checkpoints `new` records for a line of n scalar values. */
  function CheckpointCount(n: nat): nat {
    n / Stride + if n % Stride == 0 then 1 else 2
  }

  /** Scalar-value index of checkpoint c: every Stride values, then the line end. */
  function CheckpointChar(n: nat, c: nat): (k: nat)
    requires c < CheckpointCount(n)
    ensures k <= n
  {
    if c <= n / Stride then Stride * c else n
  }

  ghost predicate CheckpointsOf(line: seq<Scalar>, start: nat, cps: seq<Checkpoint>) {
    && |cps| == CheckpointCount(|line|)
    && forall c :: 0 <= c < |cps| ==> cps[c] == CheckpointAt(line, start, CheckpointChar(|line|, c))
  }

  /** li indexes a line whose scalar values are `line` (the slice `&s[start..end]`). */
  ghost predicate ValidLine(line: seq<Scalar>, li: LineIndex) {
    li.end == li.start + U8(line) && CheckpointsOf(line, li.start, li.checkpoints)
  }

  /** Utf16LineIndex::new: a checkpoint at the start, one every Stride values, one at the end. */
  method NewLineIndex(line: seq<Scalar>, start: nat, end: nat) returns (li: LineIndex)
    requires end == start + U8(line)
    ensures li.start == start && li.end == end && ValidLine(line, li)
  {
    var checkpoints := [Checkpoint(start, 0)];
    var utf16Col := 0;
    var charCount := 0;
    var rel := 0;
    for k := 0 to |line|
      invariant rel == U8(line[..k]) && utf16Col == U16(line[..k]) && charCount == k
      invariant |checkpoints| == k / Stride + 1
      invariant forall c :: 0 <= c < |checkpoints| ==>
          Stride * c <= k && checkpoints[c] == CheckpointAt(line, start, Stride * c)
    {
      var ch := line[k];
      PrefixStep(line, k);
      utf16Col := utf16Col + Utf16Len(ch);
      charCount := charCount + 1;
      if charCount % Stride == 0 {
        var nextByte := start + rel + Utf8Len(ch);
        checkpoints := checkpoints + [Checkpoint(nextByte, utf16Col)];
      }
      rel := rel + Utf8Len(ch);
    }
    var n := |line|;
    assert line[..n] == line;
    if n % Stride != 0 {
      PrefixOrder(line, n, Stride * (n / Stride));
    }
    if checkpoints[|checkpoints| - 1].byte != end {
      checkpoints := checkpoints + [Checkpoint(end, utf16Col)];
    }
    li := LineIndex(start, end, checkpoints);
  }

  function CheckpointBytes(cps: seq<Checkpoint>): (keys: seq<nat>)
    ensures |keys| == |cps| && forall i :: 0 <= i < |cps| ==> keys[i] == cps[i].byte
  {
    seq(|cps|, i requires 0 <= i < |cps| => cps[i].byte)
  }

  function CheckpointCols(cps: seq<Checkpoint>): (keys: seq<nat>)
    ensures |keys| == |cps| && forall i :: 0 <= i < |cps| ==> keys[i] == cps[i].utf16Col
  {
    seq(|cps|, i requires 0 <= i < |cps| => cps[i].utf16Col)
  }

  /** The scalar indices of the checkpoints strictly increase. */
  lemma CheckpointCharIncreasing(n: nat, c: nat, d: nat)
    requires c < d < CheckpointCount(n)
    ensures CheckpointChar(n, c) < CheckpointChar(n, d)
  {
    if d > n / Stride {
      assert n % Stride != 0;
      assert Stride * c <= Stride * (n / Stride) < n;
    }
  }

  lemma CheckpointCharEnds(n: nat)
    ensures CheckpointChar(n, 0) == 0
    ensures CheckpointChar(n, CheckpointCount(n) - 1) == n
  {
    if n % Stride == 0 {
      assert Stride * (n / Stride) == n;
    }
  }

  /**
   * The checkpoints start at (start, 0), strictly increase in both byte and column, and the
   * last one is at the line end with the line's UTF-16 length.
   */
  lemma CheckpointsShape(line: seq<Scalar>, start: nat, cps: seq<Checkpoint>)
    requires CheckpointsOf(line, start, cps)
    ensures |cps| > 0 && cps[0] == Checkpoint(start, 0)
    ensures StrictlyIncreasing(CheckpointBytes(cps)) && StrictlyIncreasing(CheckpointCols(cps))
    ensures cps[|cps| - 1] == Checkpoint(start + U8(line), U16(line))
  {
    var n := |line|;
    assert line[..n] == line;
    CheckpointCharEnds(n);
    assert cps[0] == CheckpointAt(line, start, 0);
    assert cps[|cps| - 1] == CheckpointAt(line, start, n);
    var bytes, cols := CheckpointBytes(cps), CheckpointCols(cps);
    forall c, d | 0 <= c < d < |cps| ensures bytes[c] < bytes[d] && cols[c] < cols[d] {
      CheckpointCharIncreasing(n, c, d);
      var i, j := CheckpointChar(n, c), CheckpointChar(n, d);
      assert cps[c] == CheckpointAt(line, start, i) && cps[d] == CheckpointAt(line, start, j);
      U16Monotone(line, i, j);
    }
  }

  /** utf16_len: the column of the last checkpoint, which no checkpoint column exceeds. */
  function LineUtf16Len(li: LineIndex): (n: nat)
    ensures Sorted(CheckpointCols(li.checkpoints)) ==>
      forall k :: 0 <= k < |li.checkpoints| ==> li.checkpoints[k].utf16Col <= n
  {
    if |li.checkpoints| > 0 then li.checkpoints[|li.checkpoints| - 1].utf16Col else 0
  }

  lemma LineUtf16LenIsLength(line: seq<Scalar>, li: LineIndex)
    requires ValidLine(line, li)
    ensures LineUtf16Len(li) == U16(line)
  {
    CheckpointsShape(line, li.start, li.checkpoints);
  }

  /** The checkpoint bytes are sorted, as the binary search needs, and the first is the start. */
  lemma CheckpointBytesSorted(line: seq<Scalar>, start: nat, cps: seq<Checkpoint>)
    requires CheckpointsOf(line, start, cps)
    ensures |cps| > 0 && cps[0].byte == start && Sorted(CheckpointBytes(cps))
  {
    CheckpointsShape(line, start, cps);
  }

  lemma CheckpointColsSorted(line: seq<Scalar>, start: nat, cps: seq<Checkpoint>)
    requires CheckpointsOf(line, start, cps)
    ensures |cps| > 0 && cps[|cps| - 1].utf16Col == U16(line) && Sorted(CheckpointCols(cps))
  {
    CheckpointsShape(line, start, cps);
  }

  /** Every checkpoint sits after some number k of whole scalar values of the line. */
  lemma CheckpointIsPrefix(line: seq<Scalar>, li: LineIndex, c: nat) returns (k: nat)
    requires CheckpointsOf(line, li.start, li.checkpoints) && c < |li.checkpoints|
    ensures k <= |line| && li.checkpoints[c] == CheckpointAt(line, li.start, k)
  {
    k := CheckpointChar(|line|, c);
  }

  /** The binary search of byte_to_utf16_col: the last checkpoint at or before byte x. */
  function CheckpointAtOrBefore(line: seq<Scalar>, li: LineIndex, x: nat): (c: nat)
    requires CheckpointsOf(line, li.start, li.checkpoints) && li.start <= x
    ensures c < |li.checkpoints| && li.checkpoints[c].byte <= x
  {
    CheckpointBytesSorted(line, li.start, li.checkpoints);
    LastAtOrBefore(CheckpointBytes(li.checkpoints), x)
  }

  /** The binary search of utf16_col_to_byte: the last checkpoint at or before column x. */
  function CheckpointAtOrBeforeCol(line: seq<Scalar>, li: LineIndex, x: nat): (c: nat)
    requires CheckpointsOf(line, li.start, li.checkpoints)
    ensures c < |li.checkpoints| && li.checkpoints[c].utf16Col <= x
  {
    CheckpointColsSorted(line, li.start, li.checkpoints);
    LastAtOrBefore(CheckpointCols(li.checkpoints), x)
  }

  /**
   * The forward scan of byte_to_utf16_col: from a checkpoint after k0 whole values, add each
   * value that ends at or before the clamped byte.
   */
  method ScanToByte(line: seq<Scalar>, start: nat, clamped: nat, cpByte: nat, cpUtf16: nat, ghost k0: nat)
    returns (curUtf16: nat)
    requires k0 <= |line| && cpByte == start + U8(line[..k0]) && cpUtf16 == U16(line[..k0])
    requires cpByte <= clamped <= start + U8(line)
    ensures curUtf16 == NaiveByteToUtf16Col(line, clamped - start)
  {
    var curByte := cpByte;
    curUtf16 := cpUtf16;
    ghost var k: nat := k0;
    var lineLen := U8(line);
    while curByte < clamped
      invariant k <= |line| && curByte == start + U8(line[..k]) && curUtf16 == U16(line[..k])
      invariant curByte <= clamped
      decreases clamped - curByte
    {
      var rel := curByte - start;
      if rel >= lineLen {
        break;
      }
      ScanStep(line, k);
      var ch := DecodeAt(line, rel);
      var nextByte := curByte + Utf8Len(ch);
      if nextByte <= clamped {
        curUtf16 := curUtf16 + Utf16Len(ch);
        curByte := nextByte;
        k := k + 1;
      } else {
        ByteScanStopsAt(line, clamped - start, k);
        break;
      }
    }
    if curByte >= clamped {
      ByteScanStopsAt(line, clamped - start, k);
    }
  }

  /**
   * byte_to_utf16_col: from the last checkpoint at or before the clamped byte, add whole
   * scalar values that end at or before it. Equal to the naive scan from the line start.
   */
  method ByteToUtf16Col(line: seq<Scalar>, li: LineIndex, absByte: nat) returns (col: nat)
    requires ValidLine(line, li)
    ensures absByte <= li.start ==> col == 0
    ensures col == NaiveByteToUtf16Col(line, if absByte <= li.start then 0 else absByte - li.start)
  {
    if absByte <= li.start {
      return 0;
    }
    var clamped := Min(absByte, li.end);
    var cpIdx := CheckpointAtOrBefore(line, li, clamped);
    var cp := li.checkpoints[cpIdx];
    ghost var k := CheckpointIsPrefix(line, li, cpIdx);
    col := ScanToByte(line, li.start, clamped, cp.byte, cp.utf16Col, k);
    assert clamped - li.start == Min(absByte - li.start, U8(line));
  }

  /**
   * The forward scan of utf16_col_to_byte: from a checkpoint after k0 whole values, advance
   * over each value whose UTF-16 units still fit within the target column.
   */
  method ScanToCol(line: seq<Scalar>, start: nat, target: nat, cpByte: nat, cpUtf16: nat, ghost k0: nat)
    returns (curByte: nat)
    requires k0 <= |line| && cpByte == start + U8(line[..k0]) && cpUtf16 == U16(line[..k0])
    requires cpUtf16 <= target
    ensures curByte == start + NaiveUtf16ColToByte(line, target)
  {
    curByte := cpByte;
    var curUtf16 := cpUtf16;
    ghost var k: nat := k0;
    var end := start + U8(line);
    var lineLen := U8(line);
    while curUtf16 < target && curByte < end
      invariant k <= |line| && curByte == start + U8(line[..k]) && curUtf16 == U16(line[..k])
      invariant curUtf16 <= target
      decreases end - curByte
    {
      var rel := curByte - start;
      if rel >= lineLen {
        break;
      }
      ScanStep(line, k);
      var ch := DecodeAt(line, rel);
      var u16Len := Utf16Len(ch);
      if curUtf16 + u16Len > target {
        ColScanStopsAt(line, target, k);
        break;
      }
      curUtf16 := curUtf16 + u16Len;
      curByte := curByte + Utf8Len(ch);
      k := k + 1;
    }
    if curUtf16 >= target || curByte >= end {
      ColScanStopsAt(line, target, k);
    }
  }

  /**
   * utf16_col_to_byte: 0 gives the start and a column at or past the line's UTF-16 length the
   * end; otherwise scan from the last checkpoint at or before the column.
   */
  method Utf16ColToByte(line: seq<Scalar>, li: LineIndex, utf16Col: nat) returns (b: nat)
    requires ValidLine(line, li)
    ensures utf16Col == 0 ==> b == li.start
    ensures b == li.start + NaiveUtf16ColToByte(line, Min(utf16Col, U16(line)))
  {
    LineUtf16LenIsLength(line, li);
    if utf16Col == 0 {
      return li.start;
    }
    if utf16Col >= LineUtf16Len(li) {
      NaiveAtLineEnd(line, U8(line), U16(line));
      return li.end;
    }
    var cpIdx := CheckpointAtOrBeforeCol(line, li, utf16Col);
    var cp := li.checkpoints[cpIdx];
    ghost var k := CheckpointIsPrefix(line, li, cpIdx);
    b := ScanToCol(line, li.start, utf16Col, cp.byte, cp.utf16Col, k);
  }

  // ---------------------------------------------------------------------------------------
  // Utf16Index
  // ---------------------------------------------------------------------------------------

  /**
   * Line starts as the index expects them: 0 first, strictly increasing, and every later one
   * just after a '\n' byte (what compute_line_starts produces).
   */
  ghost predicate ValidStarts(bytes: seq<byte>, starts: seq<nat>) {
    && |starts| > 0 && starts[0] == 0
    && StrictlyIncreasing(starts)
    && forall k :: 0 < k < |starts| ==> 0 < starts[k] <= |bytes| && bytes[starts[k] - 1] == LF
  }

  /**
   * End of line i: before its '\n', and before a '\r' directly preceding it, so the terminator
   * never counts toward columns; the last line runs to the end of the text (less a final '\r').
   */
  function LineEnd(bytes: seq<byte>, starts: seq<nat>, i: nat): (end: nat)
    requires ValidStarts(bytes, starts) && i < |starts|
    ensures starts[i] <= end <= |bytes|
    ensures i + 1 < |starts| ==> end < starts[i + 1]
  {
    // `next.saturating_sub(1)`: every start after the first is positive, so it never saturates.
    var end := if i + 1 < |starts| then starts[i + 1] - 1 else |bytes|;
    if end > starts[i] && bytes[end - 1] == CR then end - 1 else end
  }

  /**
   * What separates a line from the next is its '\n', or "\r\n" when a '\r' directly precedes the
   * '\n'; after the last line only a final '\r' may remain.
   */
  lemma LineEndTerminator(bytes: seq<byte>, starts: seq<nat>, i: nat)
    requires ValidStarts(bytes, starts) && i < |starts|
    ensures var end := LineEnd(bytes, starts, i);
      && (i + 1 < |starts| ==>
        && (bytes[end..starts[i + 1]] == [LF] || bytes[end..starts[i + 1]] == [CR, LF])
        && (starts[i] < starts[i + 1] - 1 && bytes[starts[i + 1] - 2] == CR ==> bytes[end..starts[i + 1]] == [CR, LF]))
      && (i + 1 == |starts| ==>
        && (bytes[end..] == [] || bytes[end..] == [CR])
        && (starts[i] < |bytes| && bytes[|bytes| - 1] == CR ==> bytes[end..] == [CR]))
  {
  }

  /** Both ends of every line are character boundaries. */
  lemma LineBoundaries(text: seq<Scalar>, starts: seq<nat>, i: nat)
    requires ValidStarts(Encode(text), starts) && i < |starts|
    ensures Boundary(text, starts[i]) && Boundary(text, LineEnd(Encode(text), starts, i))
  {
    var bytes := Encode(text);
    var end := LineEnd(bytes, starts, i);
    EncodeLength(text);
    LineEndTerminator(bytes, starts, i);
    if i > 0 {
      AsciiBoundary(text, starts[i] - 1);
    }
    if end < |bytes| {
      if i + 1 < |starts| {
        assert bytes[end] == bytes[end..starts[i + 1]][0];
      } else {
        assert bytes[end] == bytes[end..][0];
      }
      AsciiBoundary(text, end);
    } else {
      assert text[..|text|] == text;
      BoundaryAt(text, |text|);
    }
  }

  /** The scalar values of line i, `&s[start..end]`. */
  function LineText(text: seq<Scalar>, starts: seq<nat>, i: nat): (line: seq<Scalar>)
    requires ValidStarts(Encode(text), starts) && i < |starts|
    ensures U8(line) == LineEnd(Encode(text), starts, i) - starts[i]
  {
    LineBoundaries(text, starts, i);
    LineChars(text, starts[i], LineEnd(Encode(text), starts, i))
  }

  datatype Index = Index(text: seq<Scalar>, lineStarts: seq<nat>, lines: seq<LineIndex>)

  /** li is the index `new` builds for line i. */
  ghost predicate IndexesLine(text: seq<Scalar>, starts: seq<nat>, i: nat, li: LineIndex)
    requires ValidStarts(Encode(text), starts) && i < |starts|
  {
    && li.start == starts[i] && li.end == LineEnd(Encode(text), starts, i)
    && ValidLine(LineText(text, starts, i), li)
  }

  ghost predicate ValidIndex(idx: Index) {
    && ValidStarts(Encode(idx.text), idx.lineStarts)
    && |idx.lines| == |idx.lineStarts|
    && forall i :: 0 <= i < |idx.lines| ==> IndexesLine(idx.text, idx.lineStarts, i, idx.lines[i])
  }

  /** Utf16Index::new: one line index per line start. */
  method NewIndex(text: seq<Scalar>, lineStarts: seq<nat>) returns (idx: Index)
    requires ValidStarts(Encode(text), lineStarts)
    ensures idx.text == text && idx.lineStarts == lineStarts && ValidIndex(idx)
  {
    var bytes := Encode(text);
    var lines: seq<LineIndex> := [];
    for i := 0 to |lineStarts|
      invariant |lines| == i
      invariant forall l :: 0 <= l < i ==> IndexesLine(text, lineStarts, l, lines[l])
    {
      var li := IndexLine(text, bytes, lineStarts, i);
      lines := lines + [li];
    }
    idx := Index(text, lineStarts, lines);
  }

  /** The body of the loop of Utf16Index::new: find where line i ends and index it. */
  method IndexLine(text: seq<Scalar>, bytes: seq<byte>, lineStarts: seq<nat>, i: nat) returns (li: LineIndex)
    requires bytes == Encode(text) && ValidStarts(bytes, lineStarts) && i < |lineStarts|
    ensures IndexesLine(text, lineStarts, i, li)
  {
    var start := lineStarts[i];
    // `next.saturating_sub(1)` (never saturates, see LineEnd), or the end of the text.
    var end := if i + 1 < |lineStarts| then lineStarts[i + 1] - 1 else |bytes|;
    if end > start && bytes[end - 1] == CR {
      end := end - 1;
    }
    assert end == LineEnd(bytes, lineStarts, i);
    li := NewLineIndex(LineText(text, lineStarts, i), start, end);
  }

  /**
   * line_for_byte: the last line whose start is at or before byte; a byte past the end of the
   * text is on the final line.
   */
  function LineForByte(starts: seq<nat>, byte: nat): (line: nat)
    requires |starts| > 0 && starts[0] == 0 && StrictlyIncreasing(starts)
    ensures line < |starts| && starts[line] <= byte
    ensures forall k :: line < k < |starts| ==> starts[k] > byte
    ensures byte >= starts[|starts| - 1] ==> line == |starts| - 1
  {
    LastAtOrBefore(starts, byte)
  }

  /**
   * The (line, UTF-16 column) of a byte offset, by a naive scan of its line: the line starts at
   * or before the byte, and the column lies within the line.
   */
  function PositionOf(text: seq<Scalar>, starts: seq<nat>, byte: nat): (pos: (nat, nat))
    requires ValidStarts(Encode(text), starts)
    ensures pos.0 < |starts| && starts[pos.0] <= byte
    ensures pos.1 <= U16(LineText(text, starts, pos.0))
  {
    var l := LineForByte(starts, byte);
    (l, NaiveByteToUtf16Col(LineText(text, starts, l), byte - starts[l]))
  }

  /** The byte offset of a (line, UTF-16 column), by a naive scan; None beyond the last line. */
  function OffsetOf(text: seq<Scalar>, starts: seq<nat>, line: nat, utf16Col: nat): (r: Option<nat>)
    requires ValidStarts(Encode(text), starts)
    ensures r.None? <==> line >= |starts|
  {
    if line >= |starts| then None
    else
      var chars := LineText(text, starts, line);
      Some(starts[line] + NaiveUtf16ColToByte(chars, Min(utf16Col, U16(chars))))
  }

  /** byte_to_line_utf16_col: the line of the byte, then the column within it. */
  method ByteToLineUtf16Col(idx: Index, byte: nat) returns (line: nat, col: nat)
    requires ValidIndex(idx)
    ensures (line, col) == PositionOf(idx.text, idx.lineStarts, byte)
  {
    line := LineForByte(idx.lineStarts, byte);
    col := ByteToUtf16Col(LineText(idx.text, idx.lineStarts, line), idx.lines[line], byte);
  }

  /** line_utf16_col_to_byte: None for a line beyond the last one, else the line's conversion. */
  method LineUtf16ColToByte(idx: Index, line: nat, utf16Col: nat) returns (r: Option<nat>)
    requires ValidIndex(idx)
    ensures r == OffsetOf(idx.text, idx.lineStarts, line, utf16Col)
  {
    if line >= |idx.lines| {
      return None;
    }
    assert IndexesLine(idx.text, idx.lineStarts, line, idx.lines[line]);
    r := ColToByteOnLine(idx.text, idx.lineStarts, line, idx.lines[line], utf16Col);
  }

  /** The conversion on line i, given its index. */
  method ColToByteOnLine(text: seq<Scalar>, starts: seq<nat>, i: nat, li: LineIndex, utf16Col: nat)
    returns (r: Option<nat>)
    requires ValidStarts(Encode(text), starts) && i < |starts| && IndexesLine(text, starts, i, li)
    ensures r == OffsetOf(text, starts, i, utf16Col)
  {
    var b := Utf16ColToByte(LineText(text, starts, i), li, utf16Col);
    return Some(b);
  }

  /**
   * Round trip: a character boundary within a line (up to its end, before any '\r\n') maps to
   * a (line, column) that maps back to it.
   */
  lemma PositionRoundTrip(text: seq<Scalar>, starts: seq<nat>, byte: nat)
    requires ValidStarts(Encode(text), starts) && Boundary(text, byte)
    requires byte <= LineEnd(Encode(text), starts, LineForByte(starts, byte))
    ensures OffsetOf(text, starts, PositionOf(text, starts, byte).0, PositionOf(text, starts, byte).1)
         == Some(byte)
  {
    var l := LineForByte(starts, byte);
    var k := BoundaryInLine(text, starts, l, byte);
    var col := LineRoundTrip(text, starts, byte, l, k);
  }

  /** The round trip for a byte on line l at the end of the line's first k scalar values. */
  lemma LineRoundTrip(text: seq<Scalar>, starts: seq<nat>, byte: nat, l: nat, k: nat) returns (col: nat)
    requires ValidStarts(Encode(text), starts) && l == LineForByte(starts, byte)
    requires k <= |LineText(text, starts, l)| && byte - starts[l] == U8(LineText(text, starts, l)[..k])
    ensures PositionOf(text, starts, byte) == (l, col)
    ensures OffsetOf(text, starts, l, col) == Some(byte)
  {
    col := NaiveByteToUtf16Col(LineText(text, starts, l), byte - starts[l]);
    LineOffsetRoundTrip(text, starts, l, k, byte);
    PositionOfLine(text, starts, byte, l, col);
  }

  /** Within line l, the column of the end of its first k scalar values maps back to that end. */
  lemma LineOffsetRoundTrip(text: seq<Scalar>, starts: seq<nat>, l: nat, k: nat, byte: nat)
    requires ValidStarts(Encode(text), starts) && l < |starts| && starts[l] <= byte
    requires k <= |LineText(text, starts, l)| && byte - starts[l] == U8(LineText(text, starts, l)[..k])
    ensures OffsetOf(text, starts, l, NaiveByteToUtf16Col(LineText(text, starts, l), byte - starts[l]))
         == Some(byte)
  {
    var line := LineText(text, starts, l);
    NaiveRoundTrip(line, k, byte - starts[l]);
    OffsetOfLine(text, starts, l, NaiveByteToUtf16Col(line, byte - starts[l]), byte);
  }

  lemma PositionOfLine(text: seq<Scalar>, starts: seq<nat>, byte: nat, l: nat, col: nat)
    requires ValidStarts(Encode(text), starts) && l == LineForByte(starts, byte)
    requires col == NaiveByteToUtf16Col(LineText(text, starts, l), byte - starts[l])
    ensures PositionOf(text, starts, byte) == (l, col)
  {
  }

  /** A character boundary within line l is the end of some whole prefix of the line's values. */
  lemma BoundaryInLine(text: seq<Scalar>, starts: seq<nat>, l: nat, byte: nat) returns (k: nat)
    requires ValidStarts(Encode(text), starts) && l < |starts| && Boundary(text, byte)
    requires starts[l] <= byte <= LineEnd(Encode(text), starts, l)
    ensures k <= |LineText(text, starts, l)|
    ensures byte - starts[l] == U8(LineText(text, starts, l)[..k])
  {
    var start, end := starts[l], LineEnd(Encode(text), starts, l);
    LineBoundaries(text, starts, l);
    var i, j, m := CharsInBytes(text, start), CharsInBytes(text, end), CharsInBytes(text, byte);
    PrefixOrder(text, i, m);
    PrefixOrder(text, m, j);
    var line := LineText(text, starts, l);
    assert line == text[i..j];
    assert line[..m - i] == text[i..m];
    SliceU8(text, i, m);
    k := m - i;
  }


  lemma OffsetOfLine(text: seq<Scalar>, starts: seq<nat>, l: nat, col: nat, byte: nat)
    requires ValidStarts(Encode(text), starts) && l < |starts| && starts[l] <= byte
    requires col <= U16(LineText(text, starts, l))
    requires NaiveUtf16ColToByte(LineText(text, starts, l), col) == byte - starts[l]
    ensures OffsetOf(text, starts, l, col) == Some(byte)
  {
  }


  /** The text "a🙂\r\nあb" and its UTF-8 bytes. */
  function CrlfText(): seq<Scalar> {
    [0x61, 0x1F642, 0x0D, 0x0A, 0x3042, 0x62]
  }

  lemma CrlfBytes()
    ensures Encode(CrlfText()) == [0x61, 0xF0, 0x9F, 0x99, 0x82, 0x0D, 0x0A, 0xE3, 0x81, 0x82, 0x62]
    ensures ValidStarts(Encode(CrlfText()), [0, 7])
  {
    var text := CrlfText();
    assert text[1..][1..][1..][1..][1..][1..] == [];
  }

  /** Its first line ends before the '\r' and holds "a🙂". */
  lemma CrlfFirstLine()
    requires ValidStarts(Encode(CrlfText()), [0, 7])
    ensures LineText(CrlfText(), [0, 7], 0) == [0x61, 0x1F642]
  {
    var text := CrlfText();
    CrlfBytes();
    assert LineEnd(Encode(text), [0, 7], 0) == 5;
    BoundaryAt(text, 0);
    BoundaryAt(text, 2);
    assert text[..0] == [] && text[..2] == [0x61, 0x1F642] && U8(text[..2]) == 5;
  }

  /** Bytes 5 and 6 are on line 0 and byte 7 on line 1. */
  lemma CrlfLines()
    ensures LineForByte([0, 7], 5) == 0 && LineForByte([0, 7], 6) == 0 && LineForByte([0, 7], 7) == 1
  {
  }

  /** On "a🙂", bytes 5 and 6 are at column 3, and column 99 clamps to byte 5. */
  lemma CrlfFirstLineColumns(line: seq<Scalar>)
    requires line == [0x61, 0x1F642]
    ensures NaiveByteToUtf16Col(line, 5) == 3 && NaiveByteToUtf16Col(line, 6) == 3
    ensures NaiveUtf16ColToByte(line, Min(99, U16(line))) == 5
  {
    assert line[1..] == [0x1F642] && line[1..][1..] == [];
    assert U8(line[1..]) == 4 && U16(line[1..]) == 2;
    assert U8(line) == 5 && U16(line) == 3;
    NaiveAtLineEnd(line, 5, 3);
    NaiveAtLineEnd(line, 6, 3);
  }

  /**
   * "a🙂\r\nあb": the '\r' ends the first line, so bytes 5 and 6 are both at column 3 of line 0,
   * byte 7 starts line 1, and a column past the end of line 0 clamps to its end, byte 5.
   */
  lemma CrlfExample()
    ensures ValidStarts(Encode(CrlfText()), [0, 7])
    ensures PositionOf(CrlfText(), [0, 7], 5) == (0, 3)
    ensures PositionOf(CrlfText(), [0, 7], 6) == (0, 3)
    ensures PositionOf(CrlfText(), [0, 7], 7) == (1, 0)
    ensures OffsetOf(CrlfText(), [0, 7], 0, 99) == Some(5)
  {
    CrlfBytes();
    CrlfFirstLine();
    CrlfLines();
    CrlfFirstLineColumns(LineText(CrlfText(), [0, 7], 0));
    assert NaiveByteToUtf16Col(LineText(CrlfText(), [0, 7], 1), 0) == 0;
  }

  /**
   * "🙂", four bytes and two UTF-16 units: byte 2 inside it clamps to column 0, column 1 inside
   * its surrogate pair clamps to byte 0, and column 2 is its end, byte 4.
   */
  lemma EmojiExample()
    ensures ValidStarts(Encode([0x1F642]), [0])
    ensures PositionOf([0x1F642], [0], 2) == (0, 0)
    ensures OffsetOf([0x1F642], [0], 0, 1) == Some(0)
    ensures OffsetOf([0x1F642], [0], 0, 2) == Some(4)
  {
    var text: seq<Scalar> := [0x1F642];
    EmojiLine(text);
    assert text[1..] == [] && U16(text) == 2;
    NaiveAtLineEnd(text, 4, 2);
  }

  /** The only line of "🙂" is the whole text. */
  lemma EmojiLine(text: seq<Scalar>)
    requires text == [0x1F642]
    ensures ValidStarts(Encode(text), [0]) && LineText(text, [0], 0) == text && U8(text) == 4
  {
    assert text[1..] == [] && Encode(text) == [0xF0, 0x9F, 0x99, 0x82];
    assert LineEnd(Encode(text), [0], 0) == 4;
    BoundaryAt(text, 0);
    BoundaryAt(text, 1);
    assert text[..0] == [] && text[..1] == text;
  }
}
