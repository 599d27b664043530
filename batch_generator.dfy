/** `MultiOutputDataGenerator.flow`: several one-hot label arrays are packed side by side
    into one array so that a single-target augmenter can carry them, and every batch it
    yields is cut back into one array per output head.

    The Python dict `y` (output name -> label array) is a sequence of (name, matrix)
    pairs in insertion order with distinct names. The Keras iterator behind
    `super().flow` is abstracted: the batches it draws are given as sequences of row
    indices into the packed array, and a batch's images are the same rows of `x`. */
module BatchGenerator {
  import opened Matrices

  type Outputs<T> = seq<(string, Matrix<T>)>

  datatype FlowError =
    | NoOutputs                        // `y` is empty: `targets` stays None
    | RowCountMismatch(output: string) // `np.concatenate` rejects this output's row count
    | LengthMismatch(images: nat, labels: nat) // Keras: `x` and `y` differ in length

  datatype Result<R> = Ok(value: R) | Err(error: FlowError)

  datatype Option<R> = None | Some(value: R)

  /** The state `flow` builds before drawing the first batch. */
  datatype Packing<T> = Packing(targets: Matrix<T>, targetLengths: map<string, nat>, orderedOutputs: seq<string>)

  /** One yielded pair: `flowx` and `target_dict`. */
  datatype Batch<X, T> = Batch(images: seq<X>, targets: Outputs<T>)

  // ---------------------------------------------------------------------------
  // Specification

  function Keys<T>(y: Outputs<T>): seq<string>
  {
    seq(|y|, k requires 0 <= k < |y| => y[k].0)
  }

  function Widths<T>(y: Outputs<T>): seq<nat>
  {
    seq(|y|, k requires 0 <= k < |y| => y[k].1.cols)
  }

  /** No name occurs twice (a dict never holds the same key twice). */
  predicate Distinct(names: seq<string>)
  {
    forall k, q :: 0 <= k < q < |names| ==> names[k] != names[q]
  }

  predicate AllValid<T>(y: Outputs<T>)
  {
    forall k :: 0 <= k < |y| ==> Valid(y[k].1)
  }

  /** Every output has as many rows as the first one. */
  predicate SameRows<T>(y: Outputs<T>)
    requires |y| > 0
  {
    forall k :: 0 <= k < |y| ==> |y[k].1.rows| == |y[0].1.rows|
  }

  /** Output k is the first whose row count differs from the first output's. */
  predicate FirstMismatch<T>(y: Outputs<T>, k: nat)
  {
    0 < k < |y| && SameRows(y[..k]) && |y[k].1.rows| != |y[0].1.rows|
  }

  function Sum(ws: seq<nat>): nat
  {
    if |ws| == 0 then 0 else Sum(ws[..|ws| - 1]) + ws[|ws| - 1]
  }

  /** The first column of output k's span: the widths of the outputs before it, added up. */
  function Start(ws: seq<nat>, k: nat): nat
    requires k <= |ws|
  {
    Sum(ws[..k])
  }

  /** The packed label array: the outputs glued together column-wise, left to right in
      insertion order, exactly as the loop in `flow` builds `targets`. */
  function Concat<T>(y: Outputs<T>): (r: Matrix<T>)
    requires |y| > 0 && SameRows(y)
    ensures |r.rows| == |y[0].1.rows|
    ensures r.cols == Sum(Widths(y))
    ensures AllValid(y) ==> Valid(r)
  {
    if |y| == 1 then
      assert Widths(y)[..0] == [];
      y[0].1
    else
      var init := y[..|y| - 1];
      assert Widths(init) == Widths(y)[..|y| - 1];
      HConcat(Concat(init), y[|y| - 1].1)
  }

  /** Cutting a packed array back apart, last output last: output k gets the columns
      [Start(widths, k), Start(widths, k) + widths[k]). */
  function Split<T>(m: Matrix<T>, names: seq<string>, widths: seq<nat>): (r: Outputs<T>)
    requires Valid(m) && |names| == |widths| && Sum(widths) <= m.cols
    ensures |r| == |names|
  {
    if |names| == 0 then []
    else
      var n := |names|;
      Split(m, names[..n - 1], widths[..n - 1]) + [(names[n - 1], ColumnSlice(m, Sum(widths[..n - 1]), Sum(widths)))]
  }

  /** What every output should receive for a batch of rows `idx`: the same rows of its
      own label array. */
  function Selected<T>(y: Outputs<T>, idx: seq<nat>): Outputs<T>
    requires forall k :: 0 <= k < |y| ==> InRange(idx, |y[k].1.rows|)
  {
    seq(|y|, k requires 0 <= k < |y| => (y[k].0, SelectRows(y[k].1, idx)))
  }

  /** The images of a batch: the rows of `x` named by `idx`. */
  function Pick<X>(x: seq<X>, idx: seq<nat>): seq<X>
    requires InRange(idx, |x|)
  {
    seq(|idx|, j requires 0 <= j < |idx| => x[idx[j]])
  }

  /** `target_lengths` records every output's width, and nothing else. */
  predicate Records<T>(lengths: map<string, nat>, y: Outputs<T>)
  {
    && (forall o :: o in lengths ==> exists k :: 0 <= k < |y| && y[k].0 == o)
    && (forall k :: 0 <= k < |y| ==> y[k].0 in lengths && lengths[y[k].0] == y[k].1.cols)
  }

  /** The widths looked up, in order, by the split loop (`target_lengths[output]`). */
  function LengthsOf(ordered: seq<string>, lengths: map<string, nat>): seq<nat>
    requires forall k :: 0 <= k < |ordered| ==> ordered[k] in lengths
  {
    seq(|ordered|, k requires 0 <= k < |ordered| => lengths[ordered[k]])
  }

  // ---------------------------------------------------------------------------
  // Span arithmetic

  /** Prefix sums grow with the prefix. */
  lemma {:induction false} StartMonotone(ws: seq<nat>, i: nat, j: nat)
    requires i <= j <= |ws|
    ensures Start(ws, i) <= Start(ws, j)
  {
    if i < j {
      StartMonotone(ws, i, j - 1);
      assert ws[..j][..j - 1] == ws[..j - 1];
    }
  }

  /** Span k ends where span k+1 starts, and never past the total width. */
  lemma StartBound(ws: seq<nat>, k: nat)
    requires k < |ws|
    ensures Start(ws, k) + ws[k] == Start(ws, k + 1) <= Sum(ws)
  {
    assert ws[..k + 1][..k] == ws[..k];
    StartMonotone(ws, k + 1, |ws|);
    assert ws[..|ws|] == ws;
  }

  /** The spans are pairwise disjoint: an earlier span ends before a later one starts. */
  lemma SpansDisjoint(ws: seq<nat>, k1: nat, k2: nat)
    requires k1 < k2 < |ws|
    ensures Start(ws, k1) + ws[k1] <= Start(ws, k2)
  {
    StartBound(ws, k1);
    StartMonotone(ws, k1 + 1, k2);
  }

  /** The spans cover every column of the packed array: each column lies in some span. */
  lemma {:induction false} SpansCover(ws: seq<nat>, c: nat)
    requires c < Sum(ws)
    ensures exists k :: 0 <= k < |ws| && Start(ws, k) <= c < Start(ws, k) + ws[k]
  {
    var n := |ws|;
    var init := ws[..n - 1];
    if c < Sum(init) {
      SpansCover(init, c);
      var k :| 0 <= k < |init| && Start(init, k) <= c < Start(init, k) + init[k];
      assert init[..k] == ws[..k];
      assert Start(ws, k) <= c < Start(ws, k) + ws[k];
    } else {
      assert Start(ws, n - 1) <= c < Start(ws, n - 1) + ws[n - 1];
    }
  }

  // ---------------------------------------------------------------------------
  // Packing is lossless

  /** Column `Start(k) + c` of row r of the packed array is column c of row r of output k. */
  lemma {:induction false} ConcatEntry<T>(y: Outputs<T>, k: nat, r: nat, c: nat)
    requires |y| > 0 && SameRows(y) && AllValid(y)
    requires k < |y| && r < |y[0].1.rows| && c < y[k].1.cols
    ensures Start(Widths(y), k) + c < Concat(y).cols
    ensures Concat(y).rows[r][Start(Widths(y), k) + c] == y[k].1.rows[r][c]
  {
    var ws := Widths(y);
    StartBound(ws, k);
    if |y| > 1 {
      var n := |y|;
      var init := y[..n - 1];
      assert Widths(init) == ws[..n - 1];
      if k < n - 1 {
        ConcatEntry(init, k, r, c);
        assert Widths(init)[..k] == ws[..k];
      }
      HConcatEntry(Concat(init), y[n - 1].1, r, Start(ws, k) + c);
    }
  }

  /** Output k of a split is its name with the columns of its span. */
  lemma {:induction false} SplitAt<T>(m: Matrix<T>, names: seq<string>, widths: seq<nat>, k: nat)
    requires Valid(m) && |names| == |widths| && Sum(widths) <= m.cols && k < |names|
    ensures Start(widths, k) + widths[k] <= m.cols
    ensures Split(m, names, widths)[k]
      == (names[k], ColumnSlice(m, Start(widths, k), Start(widths, k) + widths[k]))
  {
    var n := |names|;
    StartBound(widths, k);
    if k < n - 1 {
      SplitAt(m, names[..n - 1], widths[..n - 1], k);
      assert widths[..n - 1][..k] == widths[..k];
    } else {
      assert widths[..n] == widths;
    }
  }

  /** Splitting one more output appends that output's span to the split so far. */
  lemma SplitStep<T>(m: Matrix<T>, names: seq<string>, widths: seq<nat>, j: nat)
    requires Valid(m) && |names| == |widths| && Sum(widths) <= m.cols && j < |names|
    ensures Start(widths, j) + widths[j] == Start(widths, j + 1) <= m.cols
    ensures Split(m, names[..j + 1], widths[..j + 1])
      == Split(m, names[..j], widths[..j]) + [(names[j], ColumnSlice(m, Start(widths, j), Start(widths, j) + widths[j]))]
  {
    StartBound(widths, j);
    assert names[..j + 1][..j] == names[..j];
    assert widths[..j + 1][..j] == widths[..j];
  }

  /** Output k of a split is its name with whatever array its span of columns equals. */
  lemma SplitAtSlice<T>(m: Matrix<T>, names: seq<string>, widths: seq<nat>, k: nat, part: Matrix<T>)
    requires Valid(m) && |names| == |widths| && Sum(widths) <= m.cols && k < |names|
    requires Start(widths, k) + widths[k] <= m.cols
    requires ColumnSlice(m, Start(widths, k), Start(widths, k) + widths[k]) == part
    ensures Split(m, names, widths)[k] == (names[k], part)
  {
    SplitAt(m, names, widths, k);
  }

  /** One entry of output k's slice of a batch of packed rows. */
  lemma SliceEntry<T>(y: Outputs<T>, idx: seq<nat>, k: nat, j: nat, c: nat)
    requires |y| > 0 && SameRows(y) && AllValid(y) && InRange(idx, |y[0].1.rows|)
    requires k < |y| && j < |idx| && c < y[k].1.cols
    ensures Start(Widths(y), k) + y[k].1.cols <= Concat(y).cols
    ensures ColumnSlice(SelectRows(Concat(y), idx), Start(Widths(y), k), Start(Widths(y), k) + y[k].1.cols).rows[j][c]
      == y[k].1.rows[idx[j]][c]
  {
    var ws := Widths(y);
    StartBound(ws, k);
    ConcatEntry(y, k, idx[j], c);
    var packed := SelectRows(Concat(y), idx);
    ColumnSliceEntry(packed, Start(ws, k), Start(ws, k) + y[k].1.cols, j, c);
  }

  /** Output k's columns of a batch of packed rows are that batch of output k's own rows. */
  lemma SliceOfSelect<T>(y: Outputs<T>, idx: seq<nat>, k: nat)
    requires |y| > 0 && SameRows(y) && AllValid(y) && InRange(idx, |y[0].1.rows|) && k < |y|
    ensures Start(Widths(y), k) + Widths(y)[k] <= Concat(y).cols
    ensures ColumnSlice(SelectRows(Concat(y), idx), Start(Widths(y), k), Start(Widths(y), k) + Widths(y)[k])
      == SelectRows(y[k].1, idx)
  {
    StartBound(Widths(y), k);
    var a := ColumnSlice(SelectRows(Concat(y), idx), Start(Widths(y), k), Start(Widths(y), k) + Widths(y)[k]);
    var b := SelectRows(y[k].1, idx);
    forall j, c | 0 <= j < |idx| && 0 <= c < y[k].1.cols
      ensures a.rows[j][c] == b.rows[j][c]
    {
      SliceEntry(y, idx, k, j, c);
    }
    Extensionality(a, b);
  }

  /** Output k's slice of a batch of packed rows is the same batch of output k's rows. */
  lemma SplitSelectAt<T>(y: Outputs<T>, idx: seq<nat>, k: nat)
    requires |y| > 0 && SameRows(y) && AllValid(y) && InRange(idx, |y[0].1.rows|) && k < |y|
    ensures Split(SelectRows(Concat(y), idx), Keys(y), Widths(y))[k] == (y[k].0, SelectRows(y[k].1, idx))
  {
    var m := SelectRows(Concat(y), idx);
    var part := SelectRows(y[k].1, idx);
    assert Keys(y)[k] == y[k].0;
    assert Valid(m) && m.cols == Sum(Widths(y));
    assert Split(m, Keys(y), Widths(y))[k] == (Keys(y)[k], part) by {
      SliceOfSelect(y, idx, k);
      SplitAtSlice(m, Keys(y), Widths(y), k, part);
    }
  }

  /** Any batch of whole rows of the packed array splits into the same batch of rows of
      every output: labels stay with their images whatever rows the augmenter picks and
      in whatever order. */
  lemma SplitSelect<T>(y: Outputs<T>, idx: seq<nat>)
    requires |y| > 0 && SameRows(y) && AllValid(y) && InRange(idx, |y[0].1.rows|)
    ensures Split(SelectRows(Concat(y), idx), Keys(y), Widths(y)) == Selected(y, idx)
  {
    forall k | 0 <= k < |y|
      ensures Split(SelectRows(Concat(y), idx), Keys(y), Widths(y))[k] == Selected(y, idx)[k]
    {
      SplitSelectAt(y, idx, k);
    }
  }

  /** Round trip: splitting the packed array itself gives back every output unchanged. */
  lemma RoundTrip<T>(y: Outputs<T>)
    requires |y| > 0 && SameRows(y) && AllValid(y)
    ensures Split(Concat(y), Keys(y), Widths(y)) == y
  {
    var n := |y[0].1.rows|;
    SelectAll(Concat(y));
    var parts := Split(Concat(y), Keys(y), Widths(y));
    forall k | 0 <= k < |y|
      ensures parts[k] == y[k]
    {
      SplitSelectAt(y, Iota(n), k);
      SelectAll(y[k].1);
    }
  }

  /** The three heads as training passes them (root, vowel, consonant with 168, 11 and 7
      classes) occupy columns [0,168), [168,179) and [179,186) of a 186-column array, and
      come back out unchanged. */
  lemma ThreeHeadLayout<T>(root: Matrix<T>, vowel: Matrix<T>, consonant: Matrix<T>)
    requires Valid(root) && Valid(vowel) && Valid(consonant)
    requires root.cols == 168 && vowel.cols == 11 && consonant.cols == 7
    requires |root.rows| == |vowel.rows| == |consonant.rows|
    ensures var y := [("output_root", root), ("output_vowel", vowel), ("output_consonant", consonant)];
      && Concat(y).cols == 186
      && Start(Widths(y), 0) == 0 && Start(Widths(y), 1) == 168 && Start(Widths(y), 2) == 179
      && Split(Concat(y), Keys(y), Widths(y)) == y
  {
    var y := [("output_root", root), ("output_vowel", vowel), ("output_consonant", consonant)];
    var ws := Widths(y);
    assert ws == [168, 11, 7];
    assert ws[..0] == [] && ws[..1] == [168] && ws[..2] == [168, 11];
    assert ws[..1][..0] == ws[..0] && ws[..2][..1] == ws[..1] && ws[..3][..2] == ws[..2] && ws[..3] == ws;
    assert Sum(ws[..0]) == 0;
    assert Sum(ws[..1]) == 168;
    assert Sum(ws[..2]) == 179;
    assert Sum(ws) == 186;
    RoundTrip(y);
  }

  // ---------------------------------------------------------------------------
  // One step of the packing loop

  /** Appending output j keeps the row counts equal and extends the packed array by it. */
  lemma ConcatStep<T>(y: Outputs<T>, j: nat)
    requires 0 < j < |y| && SameRows(y[..j]) && |y[j].1.rows| == |Concat(y[..j]).rows|
    ensures SameRows(y[..j + 1])
    ensures Concat(y[..j + 1]) == HConcat(Concat(y[..j]), y[j].1)
  {
    assert y[..j + 1][..j] == y[..j];
  }

  /** A mismatch at output j means the outputs do not all share a row count. */
  lemma MismatchStep<T>(y: Outputs<T>, j: nat)
    requires 0 < j < |y| && SameRows(y[..j]) && |y[j].1.rows| != |Concat(y[..j]).rows|
    ensures !SameRows(y) && FirstMismatch(y, j)
  {
    assert y[..j][0] == y[0];
  }

  /** `target_lengths` as the loop of lines 23-29 leaves it: each output's name bound to
      its width, written in insertion order. */
  function WidthMap<T>(y: Outputs<T>): (r: map<string, nat>)
    ensures forall k :: 0 <= k < |y| ==> y[k].0 in r
    ensures forall o :: o in r ==> o in Keys(y)
  {
    if |y| == 0 then map[]
    else
      var n := |y|;
      assert Keys(y[..n - 1]) == Keys(y)[..n - 1] && Keys(y)[n - 1] == y[n - 1].0;
      WidthMap(y[..n - 1])[y[n - 1].0 := y[n - 1].1.cols]
  }

  /** Writing the widths one by one records every output's width and nothing else. */
  lemma {:induction false} WidthMapRecords<T>(y: Outputs<T>)
    requires Distinct(Keys(y))
    ensures Records(WidthMap(y), y)
  {
    if |y| > 0 {
      var n := |y|;
      assert Keys(y[..n - 1]) == Keys(y)[..n - 1];
      WidthMapRecords(y[..n - 1]);
      RecordStep(y, n - 1, WidthMap(y[..n - 1]));
      assert y[..n] == y;
    }
  }

  /** One more output extends both `target_lengths` and `ordered_outputs` by its entry. */
  lemma BookkeepingStep<T>(y: Outputs<T>, j: nat)
    requires j < |y|
    ensures WidthMap(y[..j + 1]) == WidthMap(y[..j])[y[j].0 := y[j].1.cols]
    ensures Keys(y[..j + 1]) == Keys(y[..j]) + [y[j].0]
  {
    assert y[..j + 1][..j] == y[..j];
  }

  /** Recording output j's width and name keeps `target_lengths` and `ordered_outputs`
      in step with the outputs seen so far. */
  lemma RecordStep<T>(y: Outputs<T>, j: nat, lengths: map<string, nat>)
    requires j < |y| && Distinct(Keys(y)) && Records(lengths, y[..j])
    ensures Records(lengths[y[j].0 := y[j].1.cols], y[..j + 1])
  {
    var next := lengths[y[j].0 := y[j].1.cols];
    var prefix := y[..j + 1];
    forall o | o in next
      ensures exists k :: 0 <= k < |prefix| && prefix[k].0 == o
    {
      if o == y[j].0 {
        assert prefix[j].0 == o;
      } else {
        var k :| 0 <= k < j && y[..j][k].0 == o;
        assert prefix[k].0 == o;
      }
    }
    forall k | 0 <= k < |prefix|
      ensures prefix[k].0 in next && next[prefix[k].0] == prefix[k].1.cols
    {
      if k < j {
        assert y[..j][k] == prefix[k];
        assert Keys(y)[k] == prefix[k].0 && Keys(y)[j] == y[j].0;
      }
    }
  }

  // ---------------------------------------------------------------------------
  // The generator

  /** Lines 20-29 of `flow`: grow `targets` by concatenation, record each output's width
      in `target_lengths` and its name in `ordered_outputs`, in insertion order. */
  method Pack<T>(y: Outputs<T>) returns (r: Result<Packing<T>>)
    requires AllValid(y) && Distinct(Keys(y))
    ensures r == Err(NoOutputs) <==> |y| == 0
    ensures r.Err? <==> |y| == 0 || !SameRows(y)
    ensures r.Err? && |y| > 0 ==>
      exists k: nat :: FirstMismatch(y, k) && r.error == RowCountMismatch(y[k].0)
    ensures r.Ok? ==>
      && r.value.targets == Concat(y)
      && r.value.orderedOutputs == Keys(y)
      && Records(r.value.targetLengths, y)
  {
    var targets: Option<Matrix<T>> := None;
    var targetLengths: map<string, nat> := map[];
    var orderedOutputs: seq<string> := [];
    var j := 0;
    while j < |y|
      invariant 0 <= j <= |y|
      invariant targets.None? <==> j == 0
      invariant j > 0 ==> SameRows(y[..j]) && targets == Some(Concat(y[..j]))
      invariant orderedOutputs == Keys(y[..j])
      invariant targetLengths == WidthMap(y[..j])
    {
      var (output, target) := y[j];
      match targets {
        case None =>
          assert y[..1] == [y[0]];
          targets := Some(target);
        case Some(t) =>
          if |t.rows| != |target.rows| {
            MismatchStep(y, j);
            return Err(RowCountMismatch(output));
          }
          ConcatStep(y, j);
          targets := Some(HConcat(t, target));
      }
      BookkeepingStep(y, j);
      targetLengths := targetLengths[output := target.cols];
      orderedOutputs := orderedOutputs + [output];
      j := j + 1;
    }
    assert y[..j] == y;
    WidthMapRecords(y);
    if targets.None? {
      return Err(NoOutputs);
    }
    return Ok(Packing(targets.value, targetLengths, orderedOutputs));
  }

  /** Lines 33-38 of `flow`: cut one label batch into `target_dict`, advancing the running
      offset `i` by each output's recorded width. */
  method SplitBatch<T>(flowy: Matrix<T>, orderedOutputs: seq<string>, targetLengths: map<string, nat>)
    returns (targetDict: Outputs<T>)
    requires Valid(flowy) && Distinct(orderedOutputs)
    requires forall k :: 0 <= k < |orderedOutputs| ==> orderedOutputs[k] in targetLengths
    requires flowy.cols == Sum(LengthsOf(orderedOutputs, targetLengths))
    ensures targetDict == Split(flowy, orderedOutputs, LengthsOf(orderedOutputs, targetLengths))
    ensures Keys(targetDict) == orderedOutputs
    ensures forall k :: 0 <= k < |targetDict| ==>
      |targetDict[k].1.rows| == |flowy.rows| && targetDict[k].1.cols == targetLengths[orderedOutputs[k]]
  {
    ghost var ws := LengthsOf(orderedOutputs, targetLengths);
    targetDict := [];
    var i := 0;
    var j := 0;
    while j < |orderedOutputs|
      invariant 0 <= j <= |orderedOutputs|
      invariant i == Start(ws, j) <= flowy.cols
      invariant targetDict == Split(flowy, orderedOutputs[..j], ws[..j])
    {
      var output := orderedOutputs[j];
      var targetLength := targetLengths[output];
      assert i + targetLength == Start(ws, j + 1) <= flowy.cols
        && Split(flowy, orderedOutputs[..j + 1], ws[..j + 1])
          == targetDict + [(output, ColumnSlice(flowy, i, i + targetLength))] by {
        SplitStep(flowy, orderedOutputs, ws, j);
      }
      targetDict := targetDict + [(output, ColumnSlice(flowy, i, i + targetLength))];
      i := i + targetLength;
      j := j + 1;
    }
    assert orderedOutputs[..j] == orderedOutputs && ws[..j] == ws;
    forall k | 0 <= k < |orderedOutputs|
      ensures targetDict[k].0 == orderedOutputs[k]
      ensures |targetDict[k].1.rows| == |flowy.rows| && targetDict[k].1.cols == targetLengths[orderedOutputs[k]]
    {
      SplitAt(flowy, orderedOutputs, ws, k);
    }
  }

  /** The whole generator for a finite run of batches: pack `y`, let Keras check that
      `x` and the packed array have the same length, then for each batch of row indices
      the augmenter draws, yield those images with the label batch split back apart. */
  method Flow<X, T>(x: seq<X>, y: Outputs<T>, batches: seq<seq<nat>>) returns (r: Result<seq<Batch<X, T>>>)
    requires AllValid(y) && Distinct(Keys(y))
    requires forall b :: 0 <= b < |batches| ==> InRange(batches[b], |x|)
    ensures r.Err? <==> |y| == 0 || !SameRows(y) || |x| != |y[0].1.rows|
    ensures r.Ok? ==> |r.value| == |batches|
    ensures r.Ok? ==> forall b :: 0 <= b < |batches| ==>
      r.value[b] == Batch(Pick(x, batches[b]), Selected(y, batches[b]))
  {
    var packed := Pack(y);
    if packed.Err? {
      return Err(packed.error);
    }
    var p := packed.value;
    if |x| != |p.targets.rows| {
      return Err(LengthMismatch(|x|, |p.targets.rows|));
    }
    assert LengthsOf(p.orderedOutputs, p.targetLengths) == Widths(y);
    var out: seq<Batch<X, T>> := [];
    var b := 0;
    while b < |batches|
      invariant 0 <= b <= |batches|
      invariant |out| == b
      invariant forall q :: 0 <= q < b ==> out[q] == Batch(Pick(x, batches[q]), Selected(y, batches[q]))
    {
      var idx := batches[b];
      var flowx := Pick(x, idx);
      var flowy := SelectRows(p.targets, idx);
      var targetDict := SplitBatch(flowy, p.orderedOutputs, p.targetLengths);
      assert targetDict == Selected(y, idx) by {
        SplitSelect(y, idx);
      }
      out := out + [Batch(flowx, targetDict)];
      b := b + 1;
    }
    return Ok(out);
  }
}
