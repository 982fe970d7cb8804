/**
 * The whitespace-stripping engine (crates/core/src/strip.rs): whitespace-only gaps between
 * adjacent named children of `document` and `element` nodes are rewritten by rotating a
 * trailing delimiter (`>`, `/>`, `-->`, `}`) of the previous node to the end of the gap, or an
 * opener prefix (`<tag`, `<!--`, `{`) of the next node to its start. Every rewrite is an edit
 * whose replacement is a permutation of the bytes it replaces, with a per-byte origin map.
 *
 * The syntax tree is an input: each container is given as the list of its named children,
 * each child carrying its kind, byte range, trailing delimiter and opener prefix end.
 */
module Strip {
  import opened Basics
  import opened Edit
  import opened Unicode

  /** StripConfig: skip gaps holding a blank line when preserveBlankLines is set. */
  datatype StripConfig = StripConfig(preserveBlankLines: bool)

  // ---------------------------------------------------------------------------------------
  // Trailing delimiters
  // ---------------------------------------------------------------------------------------

  /** The delimiters that can be rotated across a gap. */
  datatype TrailingDelim = Gt | SlashGt | CommentEnd | RBrace {
    /** The literal bytes of the delimiter. */
    function Bytes(): (b: seq<byte>)
      ensures 1 <= |b| <= 3
    {
      match this
      case Gt => ['>' as byte]
      case SlashGt => ['/' as byte, '>' as byte]
      case CommentEnd => ['-' as byte, '-' as byte, '>' as byte]
      case RBrace => ['}' as byte]
    }

    function Len(): nat {
      |Bytes()|
    }

    /** How many indentation bytes a rotation may steal: two for `/>`, one otherwise. */
    function MaxSteal(): nat {
      match this
      case SlashGt => 2
      case _ => 1
    }
  }

  lemma DelimLengths()
    ensures Gt.Len() == 1 && SlashGt.Len() == 2 && CommentEnd.Len() == 3 && RBrace.Len() == 1
    ensures forall d: TrailingDelim :: 1 <= d.MaxSteal() <= d.Len()
  {
  }

  // ---------------------------------------------------------------------------------------
  // contains_blank_line
  // ---------------------------------------------------------------------------------------

  /** Bytes i .. i+|w|-1 of b are w. */
  ghost predicate WindowAt(b: seq<byte>, w: seq<byte>, i: nat) {
    i + |w| <= |b| && b[i..i + |w|] == w
  }

  lemma WindowShift(b: seq<byte>, w: seq<byte>)
    requires |b| > 0
    ensures forall i: nat :: 0 < i ==> (WindowAt(b, w, i) <==> WindowAt(b[1..], w, i - 1))
    ensures forall j: nat :: WindowAt(b[1..], w, j) ==> WindowAt(b, w, j + 1)
  {
    forall i: nat | 0 < i ensures WindowAt(b, w, i) <==> WindowAt(b[1..], w, i - 1) {
      if i + |w| <= |b| {
        var x, y := b[i..i + |w|], b[1..][i - 1..i - 1 + |w|];
        assert forall j :: 0 <= j < |w| ==> x[j] == y[j];
        assert x == y;
      }
    }
    forall j: nat | WindowAt(b[1..], w, j) ensures WindowAt(b, w, j + 1) {
      assert WindowAt(b, w, j + 1) <==> WindowAt(b[1..], w, j + 1 - 1);
    }
  }

  /** Some window of |w| consecutive bytes of b equals w (`b.windows(|w|).any(|x| x == w)`). */
  function HasWindow(b: seq<byte>, w: seq<byte>): (r: bool)
    requires |w| > 0
    ensures r <==> exists i: nat :: WindowAt(b, w, i)
    decreases |b|
  {
    if |b| < |w| then false
    else if b[..|w|] == w then
      assert WindowAt(b, w, 0);
      true
    else
      var r := HasWindow(b[1..], w);
      WindowShift(b, w);
      assert !WindowAt(b, w, 0);
      r
  }

  /** A blank line starts at byte i: "\n\n" or "\r\n\r\n". */
  ghost predicate BlankLineAt(ws: seq<byte>, i: nat) {
    || (i + 2 <= |ws| && ws[i] == LF && ws[i + 1] == LF)
    || (i + 4 <= |ws| && ws[i] == CR && ws[i + 1] == LF && ws[i + 2] == CR && ws[i + 3] == LF)
  }

  lemma BlankLineWindows(ws: seq<byte>)
    ensures forall i: nat :: BlankLineAt(ws, i) <==> WindowAt(ws, [LF, LF], i) || WindowAt(ws, [CR, LF, CR, LF], i)
  {
    forall i: nat ensures BlankLineAt(ws, i) <==> WindowAt(ws, [LF, LF], i) || WindowAt(ws, [CR, LF, CR, LF], i) {
      if i + 2 <= |ws| && ws[i] == LF && ws[i + 1] == LF {
        assert ws[i..i + 2] == [LF, LF];
      }
      if i + 4 <= |ws| && ws[i] == CR && ws[i + 1] == LF && ws[i + 2] == CR && ws[i + 3] == LF {
        assert ws[i..i + 4] == [CR, LF, CR, LF];
      }
      if WindowAt(ws, [LF, LF], i) {
        assert ws[i] == ws[i..i + 2][0] && ws[i + 1] == ws[i..i + 2][1];
      }
      if WindowAt(ws, [CR, LF, CR, LF], i) {
        var q := ws[i..i + 4];
        assert ws[i] == q[0] && ws[i + 1] == q[1] && ws[i + 2] == q[2] && ws[i + 3] == q[3];
      }
    }
  }

  /** A gap holds a blank line: two line breaks in a row, as "\n\n" or "\r\n\r\n". */
  function ContainsBlankLine(ws: seq<byte>): (r: bool)
    ensures r <==> exists i: nat :: BlankLineAt(ws, i)
  {
    BlankLineWindows(ws);
    if HasWindow(ws, [LF, LF]) then true
    else HasWindow(ws, [CR, LF, CR, LF])
  }

  /** The source's fixtures for blank-line detection. */
  lemma BlankLineExamples()
    ensures ContainsBlankLine(Ascii("\n\n"))
    ensures ContainsBlankLine(Ascii(" \n\n  "))
    ensures ContainsBlankLine(Ascii("\r\n\r\n"))
    ensures !ContainsBlankLine(Ascii("\n  \n"))
  {
    var a := Ascii(" \n\n  ");
    assert a[1] == LF && a[2] == LF;
    var c := Ascii("\r\n\r\n");
    assert c[0] == CR && c[1] == LF && c[2] == CR && c[3] == LF;
    var d := Ascii("\n  \n");
    assert d == [LF, SPACE, SPACE, LF];
  }

  // ---------------------------------------------------------------------------------------
  // Rotations
  // ---------------------------------------------------------------------------------------

  /** Segment offsets of the output z ++ y ++ x of segment x ++ y ++ z, with a, b, c the ends of x, y, z. */
  function RotationOffsets(a: nat, b: nat, c: nat): (offs: seq<nat>)
    requires a <= b <= c
    ensures |offs| == c
    ensures forall k :: 0 <= k < c ==>
      offs[k] == if k < c - b then b + k else if k < c - a then a + (k - (c - b)) else k - (c - a)
  {
    Range(b, c) + Range(a, b) + Range(0, a)
  }

  /** Rotating x ++ y ++ z into z ++ y ++ x moves every element, and loses or repeats none. */
  lemma Rotation<T>(x: seq<T>, y: seq<T>, z: seq<T>, a: nat, b: nat, c: nat)
    requires a == |x| && b == |x| + |y| && c == |x| + |y| + |z|
    ensures IsPermutation(RotationOffsets(a, b, c), c)
    ensures forall k :: 0 <= k < c ==> (z + y + x)[k] == (x + y + z)[RotationOffsets(a, b, c)[k]]
  {
    var offs := RotationOffsets(a, b, c);
    forall v | 0 <= v < c ensures v in offs {
      if v >= b {
        assert offs[v - b] == v;
      } else if v >= a {
        assert offs[(c - b) + (v - a)] == v;
      } else {
        assert offs[(c - a) + v] == v;
      }
    }
    var seg, out := x + y + z, z + y + x;
    forall k | 0 <= k < c ensures out[k] == seg[offs[k]] {
      if k < c - b {
        assert out[k] == z[k] && seg[b + k] == z[k];
      } else if k < c - a {
        assert out[k] == y[k - (c - b)] && seg[a + (k - (c - b))] == y[k - (c - b)];
      } else {
        assert out[k] == x[k - (c - a)];
      }
    }
  }

  /** Start of the gap's final line: just after its last '\n', or 0. */
  function LastLineStart(gap: seq<byte>): (r: nat)
    ensures r <= |gap|
    ensures r > 0 ==> gap[r - 1] == LF
    ensures forall k :: r <= k < |gap| ==> gap[k] != LF
  {
    if gap == [] then 0
    else if gap[|gap| - 1] == LF then |gap|
    else LastLineStart(gap[..|gap| - 1])
  }

  predicate IsBlank(b: byte) {
    b == SPACE || b == TAB
  }

  /**
   * How many ' '/'\t' bytes end gap, counting at most cap and none before index lo: the
   * stolen indentation is the longest such run.
   */
  function TrailingBlanks(gap: seq<byte>, lo: nat, cap: nat): (t: nat)
    ensures t <= cap && (t == 0 || lo + t <= |gap|)
    ensures forall k :: |gap| - t <= k < |gap| ==> IsBlank(gap[k])
    ensures t < cap && lo + t < |gap| ==> !IsBlank(gap[|gap| - t - 1])
    decreases |gap|
  {
    if cap == 0 || |gap| <= lo || !IsBlank(gap[|gap| - 1]) then 0
    else 1 + TrailingBlanks(gap[..|gap| - 1], lo, cap - 1)
  }

  /** The contract of TrailingBlanks determines its result: no other count has all three properties. */
  lemma {:induction false} TrailingBlanksUnique(gap: seq<byte>, lo: nat, cap: nat, t: nat)
    requires t <= cap && (t == 0 || lo + t <= |gap|)
    requires forall k :: |gap| - t <= k < |gap| ==> IsBlank(gap[k])
    requires t < cap && lo + t < |gap| ==> !IsBlank(gap[|gap| - t - 1])
    ensures t == TrailingBlanks(gap, lo, cap)
    decreases |gap|
  {
    var n := |gap|;
    if cap > 0 && n > lo && IsBlank(gap[n - 1]) {
      var g := gap[..n - 1];
      assert forall k :: |g| - (t - 1) <= k < |g| ==> g[k] == gap[k];
      TrailingBlanksUnique(g, lo, cap - 1, t - 1);
    }
  }

  /** Number of indentation bytes the delimiter steals from the gap's final line. */
  function StealCount(delim: TrailingDelim, gap: seq<byte>): (t: nat)
    ensures t <= delim.MaxSteal() && t <= |gap| - LastLineStart(gap)
    ensures forall k :: |gap| - t <= k < |gap| ==> IsBlank(gap[k]) && k >= LastLineStart(gap)
    ensures t < delim.MaxSteal() && LastLineStart(gap) + t < |gap| ==> !IsBlank(gap[|gap| - t - 1])
  {
    TrailingBlanks(gap, LastLineStart(gap), delim.MaxSteal())
  }

  /**
   * The delimiter rotation of segment `delim ++ gap`: the stolen indentation, the rest of the
   * gap, then the delimiter; with the segment offset of every output byte.
   */
  function DelimRotation(delim: TrailingDelim, gap: seq<byte>): (r: (seq<byte>, seq<nat>))
    ensures |r.0| == |r.1| == delim.Len() + |gap|
    ensures r.0[..StealCount(delim, gap)] == gap[|gap| - StealCount(delim, gap)..]
    ensures r.0[StealCount(delim, gap)..|gap|] == gap[..|gap| - StealCount(delim, gap)]
    ensures r.0[|gap|..] == delim.Bytes()
  {
    StealRotation(delim.Bytes(), gap, StealCount(delim, gap))
  }

  /**
   * The delimiter rotation only rearranges its segment: the offsets are a permutation and
   * every output byte is the segment byte its offset names.
   */
  lemma DelimRotationPermutes(delim: TrailingDelim, gap: seq<byte>)
    ensures IsPermutation(DelimRotation(delim, gap).1, delim.Len() + |gap|)
    ensures forall k :: 0 <= k < delim.Len() + |gap| ==>
      DelimRotation(delim, gap).0[k] == (delim.Bytes() + gap)[DelimRotation(delim, gap).1[k]]
  {
    SplitRotation(delim.Bytes(), gap, StealCount(delim, gap));
  }

  /** The last t bytes of gap, the rest of gap, then x; with the offset of each byte in x ++ gap. */
  function StealRotation(x: seq<byte>, gap: seq<byte>, t: nat): (r: (seq<byte>, seq<nat>))
    requires t <= |gap|
    ensures |r.0| == |r.1| == |x| + |gap|
    ensures r.0[..t] == gap[|gap| - t..] && r.0[t..|gap|] == gap[..|gap| - t] && r.0[|gap|..] == x
  {
    var out := gap[|gap| - t..] + gap[..|gap| - t] + x;
    assert out[|gap|..] == x && out[..t] == gap[|gap| - t..] && out[t..|gap|] == gap[..|gap| - t];
    (out, RotationOffsets(|x|, |x| + |gap| - t, |x| + |gap|))
  }

  /** Moving the last t bytes of gap first and x last is a rotation of x ++ gap. */
  lemma SplitRotation(x: seq<byte>, gap: seq<byte>, t: nat)
    requires t <= |gap|
    ensures IsPermutation(StealRotation(x, gap, t).1, |x| + |gap|)
    ensures forall k :: 0 <= k < |x| + |gap| ==>
      StealRotation(x, gap, t).0[k] == (x + gap)[StealRotation(x, gap, t).1[k]]
  {
    var y, z := gap[..|gap| - t], gap[|gap| - t..];
    var r := StealRotation(x, gap, t);
    var offs := RotationOffsets(|x|, |x| + |gap| - t, |x| + |gap|);
    assert r == (z + y + x, offs);
    assert x + y + z == x + gap by {
      assert y + z == gap;
    }
    Rotation(x, y, z, |x|, |x| + |gap| - t, |x| + |gap|);
  }

  /** The prefix rotation of segment `gap ++ prefix`: the prefix, then the gap. */
  function PrefixRotation(prefix: seq<byte>, gap: seq<byte>): (r: (seq<byte>, seq<nat>))
    ensures |r.0| == |r.1| == |prefix| + |gap|
    ensures r.0[..|prefix|] == prefix && r.0[|prefix|..] == gap
  {
    (prefix + gap, RotationOffsets(0, |gap|, |gap| + |prefix|))
  }

  /** The prefix rotation only rearranges its segment. */
  lemma PrefixRotationPermutes(prefix: seq<byte>, gap: seq<byte>)
    ensures IsPermutation(PrefixRotation(prefix, gap).1, |prefix| + |gap|)
    ensures forall k :: 0 <= k < |prefix| + |gap| ==>
      PrefixRotation(prefix, gap).0[k] == (gap + prefix)[PrefixRotation(prefix, gap).1[k]]
  {
    Rotation([], gap, prefix, 0, |gap|, |gap| + |prefix|);
    assert [] + gap + prefix == gap + prefix;
    assert prefix + gap + [] == prefix + gap;
  }

  /**
   * rotate_delim_over_gap: find the final line, steal up to MaxSteal trailing ' '/'\t' bytes
   * of it, then emit the stolen bytes, the rest of the gap and the delimiter.
   */
  method RotateDelimOverGap(delim: TrailingDelim, gap: seq<byte>)
    returns (replacement: seq<byte>, inputOffsetForOutput: seq<nat>)
    ensures (replacement, inputOffsetForOutput) == DelimRotation(delim, gap)
  {
    var delimBytes := delim.Bytes();
    var delimLen := |delimBytes|;
    var gapLen := |gap|;
    var stealIndices := StealIndices(delim, gap);
    replacement, inputOffsetForOutput := EmitDelimRotation(delimBytes, gap, stealIndices);
    DelimRotationUnfolded(delim, gap);
  }

  lemma DelimRotationUnfolded(delim: TrailingDelim, gap: seq<byte>)
    ensures var t := StealCount(delim, gap);
      DelimRotation(delim, gap)
      == (gap[|gap| - t..] + gap[..|gap| - t] + delim.Bytes(),
          RotationOffsets(|delim.Bytes()|, |delim.Bytes()| + |gap| - t, |delim.Bytes()| + |gap|))
  {
  }

  /**
   * The stealing half of rotate_delim_over_gap: the start of the gap's final line, then the
   * indices of the trailing ' '/'\t' bytes of that line, at most MaxSteal of them, ascending.
   */
  method StealIndices(delim: TrailingDelim, gap: seq<byte>) returns (stealIndices: seq<nat>)
    ensures |stealIndices| == StealCount(delim, gap)
    ensures forall j :: 0 <= j < |stealIndices| ==> stealIndices[j] == |gap| - |stealIndices| + j
  {
    var gapLen := |gap|;
    var lastLineStart := FindLastLineStart(gap);
    var maxSteal := delim.MaxSteal();
    // Indices are pushed in decreasing order and then sorted; prepending keeps them ascending.
    stealIndices := [];
    if maxSteal > 0 && lastLineStart < gapLen {
      var i := gapLen;
      while i > lastLineStart && |stealIndices| < maxSteal
        invariant lastLineStart <= i <= gapLen && gapLen - i <= maxSteal
        invariant stealIndices == Range(i, gapLen)
        invariant forall k :: i <= k < gapLen ==> IsBlank(gap[k])
      {
        var b := gap[i - 1];
        if b == SPACE || b == TAB {
          var at: nat := i - 1;
          RangePrepend(at, gapLen);
          stealIndices := [at] + stealIndices;
          i := at;
        } else {
          break;
        }
      }
      TrailingBlanksUnique(gap, lastLineStart, maxSteal, gapLen - i);
    } else {
      TrailingBlanksUnique(gap, lastLineStart, maxSteal, 0);
    }
  }

  /** The scan for the last line start of rotate_delim_over_gap. */
  method FindLastLineStart(gap: seq<byte>) returns (lastLineStart: nat)
    ensures lastLineStart == LastLineStart(gap)
  {
    lastLineStart := 0;
    for i := 0 to |gap|
      invariant lastLineStart == LastLineStart(gap[..i])
    {
      assert gap[..i + 1][..i] == gap[..i];
      if gap[i] == LF {
        lastLineStart := i + 1;
      }
    }
    assert gap[..|gap|] == gap;
  }

  lemma RangePrepend(lo: nat, hi: nat)
    requires lo < hi
    ensures [lo] + Range(lo + 1, hi) == Range(lo, hi)
  {
    assert forall k :: 0 <= k < hi - lo ==> ([lo] + Range(lo + 1, hi))[k] == Range(lo, hi)[k];
  }

  /**
   * The emitting half of rotate_delim_over_gap for segment `delimBytes ++ gap`, given the
   * ascending indices of the stolen bytes (the last t bytes of the gap).
   */
  method EmitDelimRotation(delimBytes: seq<byte>, gap: seq<byte>, stealIndices: seq<nat>)
    returns (replacement: seq<byte>, inputOffsetForOutput: seq<nat>)
    requires |stealIndices| <= |gap|
    requires forall j :: 0 <= j < |stealIndices| ==> stealIndices[j] == |gap| - |stealIndices| + j
    ensures replacement
         == gap[|gap| - |stealIndices|..] + gap[..|gap| - |stealIndices|] + delimBytes
    ensures inputOffsetForOutput
         == RotationOffsets(|delimBytes|, |delimBytes| + |gap| - |stealIndices|, |delimBytes| + |gap|)
  {
    var delimLen := |delimBytes|;
    var gapLen := |gap|;
    ghost var t := |stealIndices|;
    ghost var keep := gapLen - t;
    replacement := [];
    inputOffsetForOutput := [];
    if |stealIndices| > 0 {
      // The stolen bytes first.
      for k := 0 to |stealIndices|
        invariant replacement == gap[keep..keep + k]
        invariant |inputOffsetForOutput| == k
        invariant forall j :: 0 <= j < k ==> inputOffsetForOutput[j] == delimLen + keep + j
      {
        var stealI := stealIndices[k];
        assert gap[keep..keep + k + 1] == gap[keep..keep + k] + [gap[stealI]];
        replacement := replacement + [gap[stealI]];
        inputOffsetForOutput := inputOffsetForOutput + [delimLen + stealI];
      }
      // Then the gap without the stolen bytes.
      for i := 0 to gapLen
        invariant replacement == gap[keep..] + gap[..Min(i, keep)]
        invariant |inputOffsetForOutput| == t + Min(i, keep)
        invariant forall j :: 0 <= j < t ==> inputOffsetForOutput[j] == delimLen + keep + j
        invariant forall j :: t <= j < t + Min(i, keep) ==> inputOffsetForOutput[j] == delimLen + j - t
      {
        if i >= keep {
          assert stealIndices[i - keep] == i;
        }
        if i !in stealIndices {
          assert gap[..i + 1] == gap[..i] + [gap[i]];
          replacement := replacement + [gap[i]];
          inputOffsetForOutput := inputOffsetForOutput + [delimLen + i];
        }
      }
      // And finally the delimiter.
      for i := 0 to delimLen
        invariant replacement == gap[keep..] + gap[..keep] + delimBytes[..i]
        invariant |inputOffsetForOutput| == gapLen + i
        invariant forall j :: 0 <= j < t ==> inputOffsetForOutput[j] == delimLen + keep + j
        invariant forall j :: t <= j < gapLen ==> inputOffsetForOutput[j] == delimLen + j - t
        invariant forall j :: gapLen <= j < gapLen + i ==> inputOffsetForOutput[j] == j - gapLen
      {
        assert delimBytes[..i + 1] == delimBytes[..i] + [delimBytes[i]];
        replacement := replacement + [delimBytes[i]];
        inputOffsetForOutput := inputOffsetForOutput + [i];
      }
      assert delimBytes[..delimLen] == delimBytes;
    } else {
      replacement, inputOffsetForOutput := EmitGapThenDelim(delimBytes, gap);
    }
  }

  /** The branch of rotate_delim_over_gap with nothing to steal: the gap, then the delimiter. */
  method EmitGapThenDelim(delimBytes: seq<byte>, gap: seq<byte>)
    returns (replacement: seq<byte>, inputOffsetForOutput: seq<nat>)
    ensures replacement == gap[|gap|..] + gap[..|gap|] + delimBytes
    ensures inputOffsetForOutput == RotationOffsets(|delimBytes|, |delimBytes| + |gap|, |delimBytes| + |gap|)
  {
    var delimLen := |delimBytes|;
    var gapLen := |gap|;
    replacement := [];
    inputOffsetForOutput := [];
    for i := 0 to gapLen
      invariant replacement == gap[..i]
      invariant |inputOffsetForOutput| == i
      invariant forall j :: 0 <= j < i ==> inputOffsetForOutput[j] == delimLen + j
    {
      assert gap[..i + 1] == gap[..i] + [gap[i]];
      replacement := replacement + [gap[i]];
      inputOffsetForOutput := inputOffsetForOutput + [delimLen + i];
    }
    for i := 0 to delimLen
      invariant replacement == gap + delimBytes[..i]
      invariant |inputOffsetForOutput| == gapLen + i
      invariant forall j :: 0 <= j < gapLen ==> inputOffsetForOutput[j] == delimLen + j
      invariant forall j :: gapLen <= j < gapLen + i ==> inputOffsetForOutput[j] == j - gapLen
    {
      assert delimBytes[..i + 1] == delimBytes[..i] + [delimBytes[i]];
      replacement := replacement + [delimBytes[i]];
      inputOffsetForOutput := inputOffsetForOutput + [i];
    }
    assert delimBytes[..delimLen] == delimBytes;
    assert gap[gapLen..] == [] && gap[..gapLen] == gap;
  }

  /** rotate_prefix_over_gap: emit the prefix, then the gap. */
  method RotatePrefixOverGap(prefix: seq<byte>, gap: seq<byte>)
    returns (replacement: seq<byte>, inputOffsetForOutput: seq<nat>)
    ensures (replacement, inputOffsetForOutput) == PrefixRotation(prefix, gap)
  {
    var gapLen := |gap|;
    var prefixLen := |prefix|;
    ghost var target := prefix + gap;
    ghost var offsets := RotationOffsets(0, gapLen, gapLen + prefixLen);
    replacement := [];
    inputOffsetForOutput := [];
    for i := 0 to prefixLen
      invariant |replacement| == i
      invariant replacement == target[..i] && inputOffsetForOutput == offsets[..i]
    {
      replacement := replacement + [prefix[i]];
      inputOffsetForOutput := inputOffsetForOutput + [gapLen + i];
    }
    for i := 0 to gapLen
      invariant |replacement| == prefixLen + i
      invariant replacement == target[..|replacement|] && inputOffsetForOutput == offsets[..|replacement|]
    {
      replacement := replacement + [gap[i]];
      inputOffsetForOutput := inputOffsetForOutput + [i];
    }
    assert replacement == target && inputOffsetForOutput == offsets;
  }

  /** The gap "\n  " of the source's fixtures: its final line is two spaces. */
  lemma IndentedGap()
    ensures LastLineStart([LF, SPACE, SPACE]) == 1
    ensures StealCount(Gt, [LF, SPACE, SPACE]) == 1 && StealCount(CommentEnd, [LF, SPACE, SPACE]) == 1
    ensures StealCount(SlashGt, [LF, SPACE, SPACE]) == 2
  {
    var g: seq<byte> := [LF, SPACE, SPACE];
    assert g[..2] == [LF, SPACE] && g[..2][..1] == [LF];
    assert LastLineStart([LF]) == 1;
    assert LastLineStart(g[..2]) == 1;
    assert TrailingBlanks(g[..2], 1, 0) == 0;
    assert TrailingBlanks(g[..2][..1], 1, 0) == 0;
    assert TrailingBlanks(g[..2], 1, 1) == 1;
  }

  /** `>` over "\n" gives "\n>": nothing to steal on an empty final line. */
  lemma RotateGtOverNewline()
    ensures DelimRotation(Gt, [LF]).0 == Ascii("\n>")
  {
    assert LastLineStart([LF]) == 1;
  }

  /** `>` over "\n  " gives " \n >": one indentation byte is stolen. */
  lemma RotateGtOverIndent()
    ensures DelimRotation(Gt, [LF, SPACE, SPACE]).0 == Ascii(" \n >")
  {
    IndentedGap();
  }

  /** `-->` over "\n  " gives " \n -->". */
  lemma RotateCommentEndOverIndent()
    ensures DelimRotation(CommentEnd, [LF, SPACE, SPACE]).0 == Ascii(" \n -->")
  {
    IndentedGap();
  }

  /** `/>` over "\n  " gives "  \n/>": both indentation bytes are stolen. */
  lemma RotateSlashGtOverIndent()
    ensures DelimRotation(SlashGt, [LF, SPACE, SPACE]).0 == Ascii("  \n/>")
  {
    IndentedGap();
  }

  /** `{` rotated left over "\n  " gives "{\n  ", with offsets 3 then 0, 1, 2. */
  lemma RotatePrefixOverIndent()
    ensures PrefixRotation(['{' as byte], [LF, SPACE, SPACE]) == (Ascii("{\n  "), [3, 0, 1, 2])
  {
    var r := PrefixRotation(['{' as byte], [LF, SPACE, SPACE]);
    assert r.1 == RotationOffsets(0, 3, 4);
    assert r.1[0] == 3 && r.1[1] == 0 && r.1[2] == 1 && r.1[3] == 2;
    assert r.1 == [3, 0, 1, 2];
    assert r.0 == ['{' as byte, LF, SPACE, SPACE] == Ascii("{\n  ");
  }

  // ---------------------------------------------------------------------------------------
  // The per-gap decision of process_container_gaps
  // ---------------------------------------------------------------------------------------

  /**
   * A named child of a container. `trailingDelim` is what TrailingDelim::from_node infers for
   * it and `openerPrefixEnd` is opener_prefix_end for it (both read the syntax tree).
   */
  datatype Sibling = Sibling(
    kind: string,
    start: nat,
    end: nat,
    trailingDelim: Option<TrailingDelim>,
    openerPrefixEnd: Option<nat>)

  /** What the syntax tree guarantees about a node: a range of the source, opener inside it. */
  ghost predicate SiblingInSource(source: seq<byte>, s: Sibling) {
    && s.start <= s.end <= |source|
    && (s.openerPrefixEnd.Some? ==> s.start < s.openerPrefixEnd.value <= s.end)
  }

  /** Segment offsets turned into input byte origins. */
  function Relocate(offs: seq<nat>, base: nat): (r: seq<Option<nat>>)
    ensures |r| == |offs| && forall k :: 0 <= k < |offs| ==> r[k] == Some(base + offs[k])
  {
    seq(|offs|, k requires 0 <= k < |offs| => Some(base + offs[k]))
  }

  /**
   * The filters that leave a gap alone: the children touch or overlap, the gap is empty or holds
   * a character that is not white space, or it holds a blank line that is to be preserved.
   */
  function GapSkipped(source: seq<byte>, config: StripConfig, prev: Sibling, next: Sibling): (skip: bool)
    requires SiblingInSource(source, prev) && SiblingInSource(source, next)
    ensures !skip ==> prev.end < next.start
    ensures !skip ==> forall k :: prev.end <= k < next.start && source[k] < 0x80 ==>
      source[k] == SPACE || TAB <= source[k] <= CR
  {
    || prev.end >= next.start
    || !AllWhitespace(source[prev.end..next.start])
    || (config.preserveBlankLines && ContainsBlankLine(source[prev.end..next.start]))
  }

  /**
   * The rotation chosen for a non-empty white-space gap, if any. A moved delimiter is replaced
   * from its first byte to the end of the gap; a moved opener prefix from the start of the gap
   * to the end of the prefix, and only after a text node.
   */
  function RotationEdit(source: seq<byte>, prev: Sibling, next: Sibling): (r: Option<Edit>)
    requires SiblingInSource(source, prev) && SiblingInSource(source, next)
    requires prev.end < next.start
    ensures r.Some? ==> r.value.start <= prev.end < next.start <= r.value.end
    ensures r.Some? ==> (r.value.movedDelimLen > 0 <==> r.value.end == next.start)
    ensures r.Some? && r.value.movedDelimLen > 0 ==>
      && prev.trailingDelim.Some?
      && r.value.movedDelimLen == prev.trailingDelim.value.Len()
      && r.value.start == prev.end - r.value.movedDelimLen
    ensures r.Some? && r.value.movedDelimLen == 0 ==>
      r.value.start == prev.end && prev.kind == "text" && next.openerPrefixEnd == Some(r.value.end)
  {
    var gapStart, gapEnd := prev.end, next.start;
    var gap := source[gapStart..gapEnd];
    if prev.trailingDelim.Some? && prev.end >= prev.trailingDelim.value.Len()
       && source[prev.end - prev.trailingDelim.value.Len()..prev.end] == prev.trailingDelim.value.Bytes() then
      // Case 1: rotate the previous node's trailing delimiter to the end of the gap.
      var delim := prev.trailingDelim.value;
      var delimPos := prev.end - delim.Len();
      var rot := DelimRotation(delim, gap);
      Some(Edit(delimPos, gapEnd, rot.0, Relocate(rot.1, delimPos), delim.Len()))
    else if prev.kind == "text" && next.openerPrefixEnd.Some? && next.openerPrefixEnd.value > gapEnd then
      // Case 2: rotate the next node's opener prefix to the start of the gap.
      var prefixEnd := next.openerPrefixEnd.value;
      var rot := PrefixRotation(source[gapEnd..prefixEnd], gap);
      Some(Edit(gapStart, prefixEnd, rot.0, Relocate(rot.1, gapStart), 0))
    else None
  }

  /**
   * The edit for the gap between adjacent named children prev and next, if any: only a
   * non-empty gap of white space that none of the filters skips is rewritten, and the edit
   * covers the whole gap.
   */
  function GapEdit(source: seq<byte>, config: StripConfig, prev: Sibling, next: Sibling): (r: Option<Edit>)
    requires SiblingInSource(source, prev) && SiblingInSource(source, next)
    ensures GapSkipped(source, config, prev, next) ==> r.None?
    ensures r.Some? ==> r.value.start <= prev.end < next.start <= r.value.end
    ensures r.Some? ==> forall k :: prev.end <= k < next.start && source[k] < 0x80 ==>
      source[k] == SPACE || TAB <= source[k] <= CR
  {
    if GapSkipped(source, config, prev, next) then None else RotationEdit(source, prev, next)
  }

  /**
   * The edit rearranges the bytes it replaces: the replacement is as long as the range, every
   * replacement byte is the source byte its origin names, and the origins are distinct bytes
   * of the range.
   */
  ghost predicate Faithful(source: seq<byte>, e: Edit) {
    && e.start < e.end <= |source|
    && |e.replacement| == e.end - e.start
    && |e.outputByteToInputByte| == |e.replacement|
    && e.movedDelimLen <= |e.replacement|
    && (forall j :: 0 <= j < |e.replacement| ==>
          && e.outputByteToInputByte[j].Some?
          && e.start <= e.outputByteToInputByte[j].value < e.end
          && e.replacement[j] == source[e.outputByteToInputByte[j].value])
    && (forall i, j :: 0 <= i < j < |e.outputByteToInputByte| ==>
          e.outputByteToInputByte[i] != e.outputByteToInputByte[j])
  }

  /**
   * A gap that holds a character that is not white space yields no edit, and neither does a
   * gap holding a blank line when blank lines are preserved. An empty gap is all white space
   * but yields no edit either, since its children touch.
   */
  lemma GapEditSkips(source: seq<byte>, config: StripConfig, prev: Sibling, next: Sibling, text: seq<Scalar>)
    requires SiblingInSource(source, prev) && SiblingInSource(source, next)
    requires prev.end <= next.start && source[prev.end..next.start] == Encode(text)
    ensures (exists k :: 0 <= k < |text| && !IsWhitespace(text[k])) ==> GapEdit(source, config, prev, next).None?
    ensures text == [] ==> GapEdit(source, config, prev, next).None?
    ensures (config.preserveBlankLines && exists i: nat :: BlankLineAt(Encode(text), i)) ==>
      GapEdit(source, config, prev, next).None?
    ensures GapEdit(source, config, prev, next).Some? ==>
      && prev.end < next.start
      && (forall k :: 0 <= k < |text| ==> IsWhitespace(text[k]))
      && !(config.preserveBlankLines && ContainsBlankLine(Encode(text)))
  {
    AllWhitespaceOfEncode(text);
    var ignored := ContainsBlankLine(Encode(text));
  }

  /**
   * The edit covers the gap [gapStart, gapEnd), is accepted by validation on its own and only
   * rearranges source bytes. A moved delimiter ends the replacement; a moved prefix starts it.
   */
  ghost predicate GapRewrite(source: seq<byte>, gapStart: nat, gapEnd: nat, e: Edit) {
    && e.start <= gapStart < gapEnd <= e.end
    && Faithful(source, e) && WellFormed(|source|, e)
    && e.replacement[|e.replacement| - e.movedDelimLen..] == source[e.start..e.start + e.movedDelimLen]
    && (e.movedDelimLen == 0 ==> e.replacement[..e.end - gapEnd] == source[gapEnd..e.end])
  }

  /** Every gap edit is a faithful rewrite of its gap. */
  lemma GapEditFaithful(source: seq<byte>, config: StripConfig, prev: Sibling, next: Sibling)
    requires SiblingInSource(source, prev) && SiblingInSource(source, next)
    requires GapEdit(source, config, prev, next).Some?
    ensures GapRewrite(source, prev.end, next.start, GapEdit(source, config, prev, next).value)
  {
    assert GapEdit(source, config, prev, next) == RotationEdit(source, prev, next);
    RotationEditFaithful(source, prev, next);
  }

  /** The two cases of RotationEdit, each discharged by its own lemma. */
  lemma RotationEditFaithful(source: seq<byte>, prev: Sibling, next: Sibling)
    requires SiblingInSource(source, prev) && SiblingInSource(source, next)
    requires prev.end < next.start && RotationEdit(source, prev, next).Some?
    ensures GapRewrite(source, prev.end, next.start, RotationEdit(source, prev, next).value)
  {
    if prev.trailingDelim.Some? && prev.end >= prev.trailingDelim.value.Len()
       && source[prev.end - prev.trailingDelim.value.Len()..prev.end] == prev.trailingDelim.value.Bytes()
    {
      DelimCase(source, prev, next);
    } else {
      PrefixCase(source, prev, next);
    }
  }

  lemma DelimCase(source: seq<byte>, prev: Sibling, next: Sibling)
    requires SiblingInSource(source, prev) && SiblingInSource(source, next) && prev.end < next.start
    requires prev.trailingDelim.Some? && prev.end >= prev.trailingDelim.value.Len()
    requires source[prev.end - prev.trailingDelim.value.Len()..prev.end] == prev.trailingDelim.value.Bytes()
    ensures RotationEdit(source, prev, next).Some?
    ensures GapRewrite(source, prev.end, next.start, RotationEdit(source, prev, next).value)
  {
    DelimEditFaithful(source, prev.end, next.start, prev.trailingDelim.value, RotationEdit(source, prev, next).value);
  }

  lemma PrefixCase(source: seq<byte>, prev: Sibling, next: Sibling)
    requires SiblingInSource(source, prev) && SiblingInSource(source, next) && prev.end < next.start
    requires !(prev.trailingDelim.Some? && prev.end >= prev.trailingDelim.value.Len()
               && source[prev.end - prev.trailingDelim.value.Len()..prev.end] == prev.trailingDelim.value.Bytes())
    requires RotationEdit(source, prev, next).Some?
    ensures GapRewrite(source, prev.end, next.start, RotationEdit(source, prev, next).value)
  {
    PrefixEditFaithful(source, prev.end, next.start, next.openerPrefixEnd.value, RotationEdit(source, prev, next).value);
  }

  /** Case 1 of the gap decision only rearranges the segment `delim ++ gap` of the source. */
  lemma DelimEditFaithful(source: seq<byte>, gapStart: nat, gapEnd: nat, delim: TrailingDelim, e: Edit)
    requires delim.Len() <= gapStart < gapEnd <= |source|
    requires source[gapStart - delim.Len()..gapStart] == delim.Bytes()
    requires
      var rot := DelimRotation(delim, source[gapStart..gapEnd]);
      e == Edit(gapStart - delim.Len(), gapEnd, rot.0, Relocate(rot.1, gapStart - delim.Len()), delim.Len())
    ensures GapRewrite(source, gapStart, gapEnd, e)
  {
    var delimPos, gap := gapStart - delim.Len(), source[gapStart..gapEnd];
    var rot := DelimRotation(delim, gap);
    DelimRotationPermutes(delim, gap);
    SliceSplit(source, delimPos, gapStart, gapEnd);
    SegmentRelocated(source, delimPos, gapEnd, delim.Bytes() + gap, rot.0, rot.1, delim.Len());
    assert rot.0[|rot.0| - delim.Len()..] == rot.0[|gap|..];
  }

  /** Case 2 of the gap decision only rearranges the segment `gap ++ prefix` of the source. */
  lemma PrefixEditFaithful(source: seq<byte>, gapStart: nat, gapEnd: nat, prefixEnd: nat, e: Edit)
    requires gapStart < gapEnd < prefixEnd <= |source|
    requires
      var rot := PrefixRotation(source[gapEnd..prefixEnd], source[gapStart..gapEnd]);
      e == Edit(gapStart, prefixEnd, rot.0, Relocate(rot.1, gapStart), 0)
    ensures GapRewrite(source, gapStart, gapEnd, e)
  {
    var gap, prefix := source[gapStart..gapEnd], source[gapEnd..prefixEnd];
    var rot := PrefixRotation(prefix, gap);
    PrefixRotationPermutes(prefix, gap);
    SegmentRelocated(source, gapStart, prefixEnd, gap + prefix, rot.0, rot.1, 0);
  }

  lemma SliceSplit(s: seq<byte>, lo: nat, mid: nat, hi: nat)
    requires lo <= mid <= hi <= |s|
    ensures s[lo..hi] == s[lo..mid] + s[mid..hi]
  {
  }

  /** A permutation of a source segment, relocated to the segment's start, is faithful. */
  lemma SegmentRelocated(source: seq<byte>, lo: nat, hi: nat, seg: seq<byte>, out: seq<byte>, offs: seq<nat>, moved: nat)
    requires lo < hi <= |source| && seg == source[lo..hi]
    requires IsPermutation(offs, hi - lo) && |out| == |offs|
    requires forall k :: 0 <= k < |out| ==> out[k] == seg[offs[k]]
    requires moved <= |out|
    ensures Faithful(source, Edit(lo, hi, out, Relocate(offs, lo), moved))
    ensures WellFormed(|source|, Edit(lo, hi, out, Relocate(offs, lo), moved))
  {
    var origins := Relocate(offs, lo);
    forall i, j | 0 <= i < j < |origins| ensures origins[i] != origins[j] {
      assert offs[i] != offs[j];
    }
  }

  /**
   * The body of the loop of process_container_gaps for one pair of adjacent named children;
   * an early return is the loop's `continue`.
   */
  method ProcessGap(source: seq<byte>, config: StripConfig, prev: Sibling, next: Sibling) returns (e: Option<Edit>)
    requires SiblingInSource(source, prev) && SiblingInSource(source, next)
    ensures e == GapEdit(source, config, prev, next)
  {
    if prev.end >= next.start {
      return None;
    }
    var gapStart := prev.end;
    var gapEnd := next.start;
    var gap := source[gapStart..gapEnd];
    if |gap| == 0 || !AllWhitespace(gap) {
      return None;
    }
    if config.preserveBlankLines && ContainsBlankLine(gap) {
      return None;
    }
    if prev.trailingDelim.Some? {
      var delim := prev.trailingDelim.value;
      var delimLen := delim.Len();
      if prev.end >= delimLen {
        var delimPos := prev.end - delimLen;
        if source[delimPos..prev.end] == delim.Bytes() {
          var replacement, inputOffsetForOutput := RotateDelimOverGap(delim, gap);
          return Some(Edit(delimPos, gapEnd, replacement, Relocate(inputOffsetForOutput, delimPos), delimLen));
        }
      }
    }
    if prev.kind == "text" && next.openerPrefixEnd.Some? && next.openerPrefixEnd.value > gapEnd {
      var prefixEnd := next.openerPrefixEnd.value;
      var prefix := source[gapEnd..prefixEnd];
      var replacement, inputOffsetForOutput := RotatePrefixOverGap(prefix, gap);
      return Some(Edit(gapStart, prefixEnd, replacement, Relocate(inputOffsetForOutput, gapStart), 0));
    }
    return None;
  }

  ghost predicate AllInSource(source: seq<byte>, siblings: seq<Sibling>) {
    forall k :: 0 <= k < |siblings| ==> SiblingInSource(source, siblings[k])
  }

  /** The edits of all gaps between adjacent named children, in order: at most one per gap. */
  function GapEdits(source: seq<byte>, config: StripConfig, siblings: seq<Sibling>): (r: seq<Edit>)
    requires AllInSource(source, siblings)
    ensures 2 <= |siblings| ==> |r| < |siblings|
    decreases |siblings|
  {
    if |siblings| < 2 then []
    else
      var init := siblings[..|siblings| - 1];
      var e := GapEdit(source, config, siblings[|siblings| - 2], siblings[|siblings| - 1]);
      GapEdits(source, config, init) + (if e.Some? then [e.value] else [])
  }

  /** e is the edit of the gap between siblings k - 1 and k. */
  ghost predicate EditOfGap(source: seq<byte>, config: StripConfig, siblings: seq<Sibling>, k: nat, e: Edit)
    requires AllInSource(source, siblings) && 0 < k < |siblings|
  {
    GapEdit(source, config, siblings[k - 1], siblings[k]) == Some(e)
  }

  /** Every edit of a container is the edit of one of its gaps. */
  lemma {:induction false} GapEditsOfGaps(source: seq<byte>, config: StripConfig, siblings: seq<Sibling>)
    requires AllInSource(source, siblings)
    ensures forall e :: e in GapEdits(source, config, siblings) ==>
      exists k :: 0 < k < |siblings| && EditOfGap(source, config, siblings, k, e)
    decreases |siblings|
  {
    if |siblings| >= 2 {
      var last := |siblings| - 1;
      GapEditsOfGaps(source, config, siblings[..last]);
      forall e | e in GapEdits(source, config, siblings)
        ensures exists k :: 0 < k < |siblings| && EditOfGap(source, config, siblings, k, e)
      {
        var k := GapOfEdit(source, config, siblings, siblings[..last], e);
      }
    }
  }

  /** One step of GapEditsOfGaps: an edit is the last gap's or, by induction, an earlier one's. */
  lemma GapOfEdit(source: seq<byte>, config: StripConfig, siblings: seq<Sibling>, init: seq<Sibling>, e: Edit)
    returns (k: nat)
    requires AllInSource(source, siblings) && |siblings| >= 2 && init == siblings[..|siblings| - 1]
    requires forall e :: e in GapEdits(source, config, init) ==>
      exists k :: 0 < k < |init| && EditOfGap(source, config, init, k, e)
    requires e in GapEdits(source, config, siblings)
    ensures 0 < k < |siblings| && EditOfGap(source, config, siblings, k, e)
  {
    var last := |siblings| - 1;
    if e in GapEdits(source, config, init) {
      k :| 0 < k < |init| && EditOfGap(source, config, init, k, e);
      assert init[k - 1] == siblings[k - 1] && init[k] == siblings[k];
    } else {
      k := last;
    }
  }

  /** Every edit of a container is a faithful gap edit. */
  lemma {:induction false} GapEditsFaithful(source: seq<byte>, config: StripConfig, siblings: seq<Sibling>)
    requires AllInSource(source, siblings)
    ensures forall e :: e in GapEdits(source, config, siblings) ==> Faithful(source, e)
    decreases |siblings|
  {
    if |siblings| >= 2 {
      GapEditsFaithful(source, config, siblings[..|siblings| - 1]);
      var e := GapEdit(source, config, siblings[|siblings| - 2], siblings[|siblings| - 1]);
      if e.Some? {
        GapEditFaithful(source, config, siblings[|siblings| - 2], siblings[|siblings| - 1]);
      }
    }
  }

  /** The gap edits of the first k + 1 children: those of the first k, then the edit of gap k. */
  lemma GapEditsSnoc(source: seq<byte>, config: StripConfig, siblings: seq<Sibling>, k: nat)
    requires AllInSource(source, siblings) && k < |siblings|
    ensures k == 0 ==> GapEdits(source, config, siblings[..k + 1]) == []
    ensures k > 0 ==>
      var g := GapEdit(source, config, siblings[k - 1], siblings[k]);
      GapEdits(source, config, siblings[..k + 1])
        == GapEdits(source, config, siblings[..k]) + (if g.Some? then [g.value] else [])
  {
    assert siblings[..k + 1][..k] == siblings[..k];
  }

  /** process_container_gaps: append the edit of every gap of one container. */
  method ProcessContainerGaps(source: seq<byte>, siblings: seq<Sibling>, config: StripConfig, edits: seq<Edit>)
    returns (out: seq<Edit>)
    requires AllInSource(source, siblings)
    ensures out == edits + GapEdits(source, config, siblings)
  {
    out := edits;
    var prevNamed: Option<Sibling> := None;
    for k := 0 to |siblings|
      invariant prevNamed == if k == 0 then None else Some(siblings[k - 1])
      invariant out == edits + GapEdits(source, config, siblings[..k])
    {
      var next := siblings[k];
      GapEditsSnoc(source, config, siblings, k);
      ghost var done := GapEdits(source, config, siblings[..k]);
      if prevNamed.None? {
        prevNamed := Some(next);
      } else {
        var prev := prevNamed.value;
        prevNamed := Some(next);
        var e := ProcessGap(source, config, prev, next);
        if e.Some? {
          out := out + [e.value];
          assert edits + done + [e.value] == edits + (done + [e.value]);
        } else {
          assert done + [] == done;
        }
      }
    }
    assert siblings[..|siblings|] == siblings;
  }

  // ---------------------------------------------------------------------------------------
  // collect_edits
  // ---------------------------------------------------------------------------------------

  /** A node visited by the walk of the syntax tree, with its named children. */
  datatype Node = Node(kind: string, namedChildren: seq<Sibling>)

  /** Only `document` and `element` nodes have their gaps rewritten. */
  predicate IsContainer(n: Node) {
    n.kind == "document" || n.kind == "element"
  }

  ghost predicate WalkInSource(source: seq<byte>, walk: seq<Node>) {
    forall n :: 0 <= n < |walk| ==> AllInSource(source, walk[n].namedChildren)
  }

  /** The edits of all containers, in walk order: each is a gap edit of a visited container. */
  function WalkEdits(source: seq<byte>, config: StripConfig, walk: seq<Node>): (r: seq<Edit>)
    requires WalkInSource(source, walk)
    ensures forall e :: e in r ==>
      exists n :: 0 <= n < |walk| && IsContainer(walk[n]) && e in GapEdits(source, config, walk[n].namedChildren)
    decreases |walk|
  {
    if walk == [] then []
    else
      var last := walk[|walk| - 1];
      WalkEdits(source, config, walk[..|walk| - 1])
        + (if IsContainer(last) then GapEdits(source, config, last.namedChildren) else [])
  }

  lemma {:induction false} WalkEditsFaithful(source: seq<byte>, config: StripConfig, walk: seq<Node>)
    requires WalkInSource(source, walk)
    ensures forall e :: e in WalkEdits(source, config, walk) ==> Faithful(source, e)
    decreases |walk|
  {
    if walk != [] {
      WalkEditsFaithful(source, config, walk[..|walk| - 1]);
      GapEditsFaithful(source, config, walk[|walk| - 1].namedChildren);
    }
  }

  /** The order of the sort: by start, then end, then replacement length. */
  predicate KeyLe(a: Edit, b: Edit) {
    || a.start < b.start
    || (a.start == b.start && (a.end < b.end || (a.end == b.end && |a.replacement| <= |b.replacement|)))
  }

  ghost predicate SortedByKey(edits: seq<Edit>) {
    forall i, j :: 0 <= i < j < |edits| ==> KeyLe(edits[i], edits[j])
  }

  lemma KeyLeTotal(a: Edit, b: Edit)
    ensures KeyLe(a, b) || KeyLe(b, a)
  {
  }

  lemma KeyLeTrans(a: Edit, b: Edit, c: Edit)
    requires KeyLe(a, b) && KeyLe(b, c)
    ensures KeyLe(a, c)
  {
  }

  /** es is the edit multiset `edits` in key order: one of the lists the sort may produce. */
  ghost predicate SortedArrangement(es: seq<Edit>, edits: seq<Edit>) {
    SortedByKey(es) && multiset(es) == multiset(edits)
  }

  lemma SortedTail(a: seq<Edit>)
    requires SortedByKey(a) && |a| > 0
    ensures SortedByKey(a[1..])
  {
    forall p, q | 0 <= p < q < |a| - 1 ensures KeyLe(a[1..][p], a[1..][q]) {
      assert a[1..][p] == a[p + 1] && a[1..][q] == a[q + 1];
    }
  }

  /**
   * In a key-sorted list whose element j has the first element's key, everything up to j has
   * that key, and removing element j leaves a key-sorted list.
   */
  lemma RemoveTiedWithFirst(b: seq<Edit>, j: nat)
    requires SortedByKey(b) && j < |b| && KeyLe(b[j], b[0])
    ensures forall p :: 0 <= p <= j ==> b[p].start == b[j].start && b[p].end == b[j].end
    ensures SortedByKey(b[..j] + b[j + 1..])
    ensures multiset(b) == multiset{b[j]} + multiset(b[..j] + b[j + 1..])
  {
    assert forall p :: 0 <= p <= j ==> KeyLe(b[0], b[p]) && KeyLe(b[p], b[j]);
    var rest := b[..j] + b[j + 1..];
    forall p, q | 0 <= p < q < |rest| ensures KeyLe(rest[p], rest[q]) {
      var bp := if p < j then p else p + 1;
      var bq := if q < j then q else q + 1;
      assert rest[p] == b[bp] && rest[q] == b[bq] && bp < bq;
    }
    assert b == b[..j] + [b[j]] + b[j + 1..];
  }

  lemma TailsSameEdits(a: seq<Edit>, b: seq<Edit>, j: nat)
    requires multiset(a) == multiset(b) && 0 < |a| && j < |b| && b[j] == a[0]
    ensures multiset(a[1..]) == multiset(b[..j] + b[j + 1..])
  {
    assert a == [a[0]] + a[1..];
    assert b == b[..j] + [b[j]] + b[j + 1..];
    assert multiset(a[1..]) == multiset(a) - multiset{a[0]};
  }

  /** Two key-sorted lists with the same edits have the same start and end at every position. */
  lemma {:induction false} ArrangementsAlign(a: seq<Edit>, b: seq<Edit>)
    requires SortedByKey(a) && SortedByKey(b) && multiset(a) == multiset(b)
    ensures |a| == |b|
    ensures forall i :: 0 <= i < |a| ==> a[i].start == b[i].start && a[i].end == b[i].end
    decreases |a|
  {
    assert |a| == |multiset(a)| == |multiset(b)| == |b|;
    if |a| == 0 {
      return;
    }
    var x := a[0];
    assert x in multiset(b) by { assert x in multiset(a); }
    var j :| 0 <= j < |b| && b[j] == x;
    assert b[0] in multiset(a);
    var m :| 0 <= m < |a| && a[m] == b[0];
    assert KeyLe(x, b[0]);
    RemoveTiedWithFirst(b, j);
    var rest := b[..j] + b[j + 1..];
    SortedTail(a);
    TailsSameEdits(a, b, j);
    ArrangementsAlign(a[1..], rest);
    forall i | 1 <= i < |a| ensures a[i].start == b[i].start && a[i].end == b[i].end {
      assert a[i] == a[1..][i - 1];
      if i <= j {
        assert rest[i - 1] == b[i - 1];
      } else {
        assert rest[i - 1] == b[i];
      }
    }
  }

  lemma ArrangementValidFrom(inputLen: nat, a: seq<Edit>, b: seq<Edit>)
    requires SortedByKey(a) && SortedByKey(b) && multiset(a) == multiset(b)
    requires EditsValid(inputLen, a)
    ensures EditsValid(inputLen, b)
  {
    ArrangementsAlign(a, b);
    forall k | 0 <= k < |b| ensures OkAt(inputLen, b, k) {
      assert b[k] in multiset(a);
      var m :| 0 <= m < |a| && a[m] == b[k];
      assert OkAt(inputLen, a, m);
      if k > 0 {
        assert OkAt(inputLen, a, k);
      }
    }
  }

  /** Validation does not depend on how the sort orders edits with equal keys. */
  lemma ArrangementsValidAlike(inputLen: nat, a: seq<Edit>, b: seq<Edit>)
    requires SortedArrangement(a, b) && SortedByKey(b)
    ensures EditsValid(inputLen, a) <==> EditsValid(inputLen, b)
  {
    if EditsValid(inputLen, a) {
      ArrangementValidFrom(inputLen, a, b);
    }
    if EditsValid(inputLen, b) {
      ArrangementValidFrom(inputLen, b, a);
    }
  }

  /** `edits.sort_by(...)` in place, here as an insertion sort by KeyLe (stable, like sort_by). */
  method SortEdits(a: array<Edit>)
    modifies a
    ensures SortedByKey(a[..])
    ensures multiset(a[..]) == multiset(old(a[..]))
  {
    var i := 0;
    while i < a.Length
      invariant 0 <= i <= a.Length
      invariant forall p, q :: 0 <= p < q < i ==> KeyLe(a[p], a[q])
      invariant multiset(a[..]) == multiset(old(a[..]))
    {
      var j := i;
      while j > 0 && !KeyLe(a[j - 1], a[j])
        invariant 0 <= j <= i
        invariant forall p, q :: 0 <= p < q <= i && q != j ==> KeyLe(a[p], a[q])
        invariant multiset(a[..]) == multiset(old(a[..]))
      {
        KeyLeTotal(a[j - 1], a[j]);
        a[j - 1], a[j] := a[j], a[j - 1];
        j := j - 1;
      }
      forall p | 0 <= p < j - 1 ensures KeyLe(a[p], a[j]) {
        KeyLeTrans(a[p], a[j - 1], a[j]);
      }
      i := i + 1;
    }
    assert forall p, q :: 0 <= p < q < a.Length ==> a[..][p] == a[p] && a[..][q] == a[q];
  }

  /**
   * collect_edits: the gap edits of every container the walk visits, sorted. The walk is the
   * pre-order sequence of nodes the tree cursor visits.
   */
  method CollectEdits(source: seq<byte>, walk: seq<Node>, config: StripConfig) returns (edits: seq<Edit>)
    requires WalkInSource(source, walk)
    ensures SortedByKey(edits)
    ensures multiset(edits) == multiset(WalkEdits(source, config, walk))
  {
    var collected: seq<Edit> := [];
    for n := 0 to |walk|
      invariant collected == WalkEdits(source, config, walk[..n])
    {
      var current := walk[n];
      assert walk[..n + 1][..n] == walk[..n];
      if current.kind == "document" || current.kind == "element" {
        collected := ProcessContainerGaps(source, current.namedChildren, config, collected);
      }
    }
    assert walk[..|walk|] == walk;
    var a := new Edit[|collected|](i requires 0 <= i < |collected| => collected[i]);
    assert a[..] == collected;
    SortEdits(a);
    edits := a[..];
  }

  // ---------------------------------------------------------------------------------------
  // rewrite
  // ---------------------------------------------------------------------------------------

  /** The apply loop of rewrite: copy each unedited span, then each replacement, then the tail. */
  method ApplyEdits(src: seq<byte>, edits: seq<Edit>) returns (out: seq<byte>)
    requires EditsValid(|src|, edits)
    ensures PiecesValid(|src|, BytePieces(edits))
    ensures out == Apply(src, BytePieces(edits))
  {
    ghost var ps := BytePieces(edits);
    assert ps[..0] == [];
    out := [];
    var cursor := 0;
    for i := 0 to |edits|
      invariant PiecesValid(|src|, ps[..i])
      invariant out == Emitted(src, ps[..i]) && cursor == Cursor(ps[..i])
    {
      ApplyStep(src, edits, i);
      var edit := edits[i];
      if cursor < edit.start {
        out := out + src[cursor..edit.start];
      } else {
        assert src[cursor..edit.start] == [];
      }
      out := out + edit.replacement;
      cursor := edit.end;
    }
    ApplyTail(src, edits);
    if cursor < |src| {
      out := out + src[cursor..];
    } else {
      assert src[cursor..] == [];
    }
  }

  /** After the loop: the output is everything emitted, then the unedited tail. */
  lemma ApplyTail(src: seq<byte>, edits: seq<Edit>)
    requires EditsValid(|src|, edits)
    ensures PiecesValid(|src|, BytePieces(edits)) && PiecesValid(|src|, BytePieces(edits)[..|edits|])
    ensures Cursor(BytePieces(edits)[..|edits|]) <= |src|
    ensures Apply(src, BytePieces(edits))
         == Emitted(src, BytePieces(edits)[..|edits|]) + src[Cursor(BytePieces(edits)[..|edits|])..]
  {
    ValidEditsArePieces(|src|, edits);
    var ps := BytePieces(edits);
    assert ps[..|edits|] == ps;
    CursorBound(|src|, ps);
  }

  /** One turn of the splice loop: edit i appends the span before it and its replacement. */
  lemma ApplyStep(src: seq<byte>, edits: seq<Edit>, i: nat)
    requires EditsValid(|src|, edits) && i < |edits|
    ensures PiecesValid(|src|, BytePieces(edits)[..i]) && PiecesValid(|src|, BytePieces(edits)[..i + 1])
    ensures Cursor(BytePieces(edits)[..i]) <= edits[i].start <= edits[i].end <= |src|
    ensures Emitted(src, BytePieces(edits)[..i + 1])
         == Emitted(src, BytePieces(edits)[..i]) + src[Cursor(BytePieces(edits)[..i])..edits[i].start]
            + edits[i].replacement
    ensures Cursor(BytePieces(edits)[..i + 1]) == edits[i].end
  {
    ValidEditsArePieces(|src|, edits);
    var ps := BytePieces(edits);
    EmittedStep(src, ps, i);
    assert ps[i] == Piece(edits[i].start, edits[i].end, edits[i].replacement);
  }

  /** Output length of the splice (src.len + the sum of the length changes); no edits, no change. */
  lemma ApplyEditsLength(src: seq<byte>, edits: seq<Edit>)
    requires EditsValid(|src|, edits)
    ensures PiecesValid(|src|, BytePieces(edits))
    ensures |Apply(src, BytePieces(edits))| == |src| + Delta(BytePieces(edits))
    ensures edits == [] ==> Apply(src, BytePieces(edits)) == src
  {
    ValidEditsArePieces(|src|, edits);
    if edits == [] {
      assert BytePieces(edits) == [];
      ApplyNoPieces(src);
    }
  }

  /** Output bytes paired with the input byte each came from. */
  ghost predicate Traced(out: seq<byte>, origins: seq<Option<nat>>, src: seq<byte>) {
    && |out| == |origins|
    && forall k :: 0 <= k < |out| ==> origins[k].Some? && origins[k].value < |src| && out[k] == src[origins[k].value]
  }

  lemma TracedConcat(o1: seq<byte>, m1: seq<Option<nat>>, o2: seq<byte>, m2: seq<Option<nat>>, src: seq<byte>)
    requires Traced(o1, m1, src) && Traced(o2, m2, src)
    ensures Traced(o1 + o2, m1 + m2, src)
  {
    assert forall k :: |o1| <= k < |o1| + |o2| ==> (o1 + o2)[k] == o2[k - |o1|] && (m1 + m2)[k] == m2[k - |o1|];
  }

  lemma TracedCopy(src: seq<byte>, lo: nat, hi: nat)
    requires lo <= hi <= |src|
    ensures Traced(src[lo..hi], Identity(|src|)[lo..hi], src)
  {
  }

  ghost predicate AllFaithful(src: seq<byte>, edits: seq<Edit>) {
    forall k :: 0 <= k < |edits| ==> Faithful(src, edits[k])
  }

  lemma {:induction false} EmittedTraced(src: seq<byte>, edits: seq<Edit>)
    requires EditsValid(|src|, edits) && AllFaithful(src, edits)
    ensures PiecesValid(|src|, BytePieces(edits)) && PiecesValid(|src|, OriginPieces(edits))
    ensures Cursor(BytePieces(edits)) == Cursor(OriginPieces(edits))
    ensures Traced(Emitted(src, BytePieces(edits)), Emitted(Identity(|src|), OriginPieces(edits)), src)
    decreases |edits|
  {
    ValidEditsArePieces(|src|, edits);
    if edits != [] {
      var n := |edits|;
      var init := edits[..n - 1];
      EditsPrefix(src, edits);
      EmittedTraced(src, init);
      PiecesOfInit(edits);
      var c := Cursor(BytePieces(init));
      var e := edits[n - 1];
      assert OkAt(|src|, edits, n - 1);
      TracedCopy(src, c, e.start);
      TracedConcat(Emitted(src, BytePieces(init)), Emitted(Identity(|src|), OriginPieces(init)),
                   src[c..e.start], Identity(|src|)[c..e.start], src);
      TracedConcat(Emitted(src, BytePieces(init)) + src[c..e.start],
                   Emitted(Identity(|src|), OriginPieces(init)) + Identity(|src|)[c..e.start],
                   e.replacement, e.outputByteToInputByte, src);
    }
  }

  /** Dropping the last edit keeps the list valid and faithful. */
  lemma EditsPrefix(src: seq<byte>, edits: seq<Edit>)
    requires EditsValid(|src|, edits) && AllFaithful(src, edits) && edits != []
    ensures EditsValid(|src|, edits[..|edits| - 1]) && AllFaithful(src, edits[..|edits| - 1])
    ensures Faithful(src, edits[|edits| - 1])
  {
    var init := edits[..|edits| - 1];
    forall k | 0 <= k < |init| ensures OkAt(|src|, init, k) && Faithful(src, init[k]) {
      assert init[k] == edits[k];
      assert OkAt(|src|, edits, k);
      if k > 0 {
        assert init[k - 1] == edits[k - 1];
      }
    }
  }

  /** The pieces of all edits but the last are the pieces minus the last. */
  lemma PiecesOfInit(edits: seq<Edit>)
    requires edits != []
    ensures BytePieces(edits)[..|edits| - 1] == BytePieces(edits[..|edits| - 1])
    ensures OriginPieces(edits)[..|edits| - 1] == OriginPieces(edits[..|edits| - 1])
    ensures BytePieces(edits)[|edits| - 1].content == edits[|edits| - 1].replacement
    ensures OriginPieces(edits)[|edits| - 1].content == edits[|edits| - 1].outputByteToInputByte
  {
  }

  lemma {:induction false} LengthPreservingDelta(edits: seq<Edit>)
    requires forall k :: 0 <= k < |edits| ==> |edits[k].replacement| == edits[k].end - edits[k].start
    ensures Delta(BytePieces(edits)) == 0
    decreases |edits|
  {
    if edits != [] {
      var init := edits[..|edits| - 1];
      assert BytePieces(edits)[..|edits| - 1] == BytePieces(init);
      LengthPreservingDelta(init);
    }
  }

  /**
   * Applying validated faithful edits keeps the length, and every output byte is the input
   * byte the origin map names for it.
   */
  lemma SpliceTraced(src: seq<byte>, edits: seq<Edit>)
    requires EditsValid(|src|, edits) && AllFaithful(src, edits)
    ensures PiecesValid(|src|, BytePieces(edits))
    ensures |Apply(src, BytePieces(edits))| == |src| == |OriginMap(|src|, edits)|
    ensures Traced(Apply(src, BytePieces(edits)), OriginMap(|src|, edits), src)
  {
    EmittedTraced(src, edits);
    LengthPreservingDelta(edits);
    var c := Cursor(BytePieces(edits));
    CursorBound(|src|, BytePieces(edits));
    TracedCopy(src, c, |src|);
    assert Identity(|src|)[c..|src|] == Identity(|src|)[c..];
    TracedConcat(Emitted(src, BytePieces(edits)), Emitted(Identity(|src|), OriginPieces(edits)),
                 src[c..], Identity(|src|)[c..], src);
  }

  /**
   * rewrite: collect the gap edits of the parsed tree (None: the parse failed), validate them
   * and apply them. The output is as long as the source and each of its bytes is the source
   * byte the edits' origin map names for it.
   */
  method Rewrite(source: seq<byte>, config: StripConfig, tree: Option<seq<Node>>)
    returns (r: Result<(seq<byte>, seq<Edit>), StripError>)
    requires tree.Some? ==> WalkInSource(source, tree.value)
    ensures tree.None? ==> r == Err(ParseFailed)
    ensures r.Err? && tree.Some? ==> r.error != ParseFailed
    ensures tree.Some? ==>
      forall es :: SortedArrangement(es, WalkEdits(source, config, tree.value)) ==>
        (r.Ok? <==> EditsValid(|source|, es))
    ensures r.Err? && tree.Some? ==>
      exists es, i :: SortedArrangement(es, WalkEdits(source, config, tree.value))
        && 0 <= i < |es|
        && (forall k :: 0 <= k < i ==> OkAt(|source|, es, k))
        && !OkAt(|source|, es, i)
        && r.error == Violation(|source|, es, i)
    ensures r.Ok? ==>
      && tree.Some?
      && SortedByKey(r.value.1)
      && multiset(r.value.1) == multiset(WalkEdits(source, config, tree.value))
      && EditsValid(|source|, r.value.1)
      && PiecesValid(|source|, BytePieces(r.value.1))
      && r.value.0 == Apply(source, BytePieces(r.value.1))
      && |r.value.0| == |source|
      && Traced(r.value.0, OriginMap(|source|, r.value.1), source)
  {
    if tree.None? {
      return Err(ParseFailed);
    }
    var edits := CollectEdits(source, tree.value, config);
    var valid := ValidateEdits(|source|, edits);
    forall es | SortedArrangement(es, WalkEdits(source, config, tree.value))
      ensures valid.Ok? <==> EditsValid(|source|, es)
    {
      ArrangementsValidAlike(|source|, es, edits);
    }
    if valid.Err? {
      return Err(valid.error);
    }
    var out := ApplyEdits(source, edits);
    WalkEditsFaithful(source, config, tree.value);
    forall k | 0 <= k < |edits| ensures Faithful(source, edits[k]) {
      assert edits[k] in multiset(edits);
    }
    SpliceTraced(source, edits);
    return Ok((out, edits));
  }
}
