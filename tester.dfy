/** `test_func`: turning the three heads' predictions into submission rows.

    For every shard (test archive 0..3) and every image id in it, three rows
    `(id + "_" + component, predicted class)` are appended to the parallel lists
    `row_id` and `target`, components in the order consonant, root, vowel. Reading
    the archives, `model.predict`, `np.argmax` and writing the CSV are outside the
    model: a shard arrives as its image ids and, per head, the already decoded class
    index of each image. */
module Tester {

  /** The order in which each image's rows are written. */
  const Components: seq<string> := ["consonant_diacritic", "grapheme_root", "vowel_diacritic"]

  /** The insertion order of `preds_dict`; head i of the model fills entry i. */
  const HeadNames: seq<string> := ["grapheme_root", "vowel_diacritic", "consonant_diacritic"]

  /** `for i in range(4)`: the number of test archives read. */
  const ShardCount: nat := 4

  /** One test archive after prediction: its image ids in file order and, for each
      model head, the decoded class of every image. */
  datatype Shard = Shard(imageIds: seq<string>, heads: seq<seq<int>>)

  datatype Row = Row(rowId: string, target: int)

  /** The model yields (at least) the three heads, each covering every image of the shard. */
  predicate WellFormed(s: Shard)
  {
    |s.heads| >= 3 && forall h :: 0 <= h < 3 ==> |s.heads[h]| >= |s.imageIds|
  }

  /** `preds_dict` holds, for every component, at least `n` predictions. */
  predicate Covers(predsDict: map<string, seq<int>>, n: nat)
  {
    forall c :: 0 <= c < |Components| ==> Components[c] in predsDict && |predsDict[Components[c]]| >= n
  }

  function RowId(id: string, comp: string): string
  {
    id + "_" + comp
  }

  // ---------------------------------------------------------------------------
  // Specification

  /** The three rows of image k, components in the fixed submission order. */
  function ImageRows(id: string, k: nat, predsDict: map<string, seq<int>>): (r: seq<Row>)
    requires Covers(predsDict, k + 1)
    ensures |r| == 3
  {
    seq(|Components|, c requires 0 <= c < |Components| =>
      Row(RowId(id, Components[c]), predsDict[Components[c]][k]))
  }

  /** An image's rows come in the order consonant, root, vowel; each is the image id
      joined to the component name by an underscore, with that component's class. */
  lemma ImageRowsOrder(id: string, k: nat, predsDict: map<string, seq<int>>)
    requires Covers(predsDict, k + 1)
    ensures ImageRows(id, k, predsDict)[0]
      == Row(id + "_consonant_diacritic", predsDict[Components[0]][k])
    ensures ImageRows(id, k, predsDict)[1]
      == Row(id + "_grapheme_root", predsDict[Components[1]][k])
    ensures ImageRows(id, k, predsDict)[2]
      == Row(id + "_vowel_diacritic", predsDict[Components[2]][k])
  {
    assert id + "_" + "consonant_diacritic" == id + "_consonant_diacritic";
    assert id + "_" + "grapheme_root" == id + "_grapheme_root";
    assert id + "_" + "vowel_diacritic" == id + "_vowel_diacritic";
  }

  /** The rows of one shard: image by image, three rows each. */
  function ShardRows(ids: seq<string>, predsDict: map<string, seq<int>>): (r: seq<Row>)
    requires Covers(predsDict, |ids|)
    ensures |r| == 3 * |ids|
  {
    if |ids| == 0 then []
    else ShardRows(ids[..|ids| - 1], predsDict) + ImageRows(ids[|ids| - 1], |ids| - 1, predsDict)
  }

  /** `preds_dict` once the shard's heads are assigned to it by position. */
  function PredsDict(heads: seq<seq<int>>): (r: map<string, seq<int>>)
    requires |heads| >= 3
    ensures r.Keys == {"grapheme_root", "vowel_diacritic", "consonant_diacritic"}
    ensures r["grapheme_root"] == heads[0] && r["vowel_diacritic"] == heads[1]
      && r["consonant_diacritic"] == heads[2]
  {
    map[HeadNames[0] := heads[0], HeadNames[1] := heads[1], HeadNames[2] := heads[2]]
  }

  /** A well-formed shard's `preds_dict` has every component, covering every image. */
  lemma DictCovers(shard: Shard)
    requires WellFormed(shard)
    ensures Covers(PredsDict(shard.heads), |shard.imageIds|)
  {
    var pd := PredsDict(shard.heads);
    assert pd[Components[0]] == shard.heads[2];
    assert pd[Components[1]] == shard.heads[0];
    assert pd[Components[2]] == shard.heads[1];
  }

  /** The whole submission: the shards' rows, shard after shard. */
  function Rows(shards: seq<Shard>): (r: seq<Row>)
    requires forall s :: 0 <= s < |shards| ==> WellFormed(shards[s])
    ensures |r| == 3 * TotalImages(shards)
  {
    if |shards| == 0 then []
    else
      var last := shards[|shards| - 1];
      assert WellFormed(last);
      DictCovers(last);
      Rows(shards[..|shards| - 1]) + ShardRows(last.imageIds, PredsDict(last.heads))
  }

  function TotalImages(shards: seq<Shard>): nat
  {
    if |shards| == 0 then 0 else TotalImages(shards[..|shards| - 1]) + |shards[|shards| - 1].imageIds|
  }

  /** The two parallel output lists hold exactly the given rows, field by field. */
  predicate Zipped(rowId: seq<string>, target: seq<int>, rows: seq<Row>)
  {
    |rowId| == |rows| && |target| == |rows|
    && forall j :: 0 <= j < |rows| ==> rowId[j] == rows[j].rowId && target[j] == rows[j].target
  }

  // ---------------------------------------------------------------------------
  // Lemmas

  /** Row 3k+c of a shard is component c's row of image k: its id is the image id, an
      underscore and the component name, and its target that component's prediction
      for image k. */
  lemma {:induction false} ShardRowAt(ids: seq<string>, predsDict: map<string, seq<int>>, k: nat, c: nat)
    requires Covers(predsDict, |ids|) && k < |ids| && c < 3
    ensures 3 * k + c < |ShardRows(ids, predsDict)|
    ensures ShardRows(ids, predsDict)[3 * k + c] == Row(RowId(ids[k], Components[c]), predsDict[Components[c]][k])
  {
    var n := |ids|;
    if k < n - 1 {
      ShardRowAt(ids[..n - 1], predsDict, k, c);
    }
  }

  /** Append only: the rows of the first s shards are never changed by later shards. */
  lemma {:induction false} RowsPrefix(shards: seq<Shard>, s: nat)
    requires forall q :: 0 <= q < |shards| ==> WellFormed(shards[q])
    requires s <= |shards|
    ensures Rows(shards[..s]) <= Rows(shards)
  {
    if s < |shards| {
      var n := |shards|;
      RowsPrefix(shards[..n - 1], s);
      assert shards[..n - 1][..s] == shards[..s];
    } else {
      assert shards[..s] == shards;
    }
  }

  /** Entry j of a part that follows `before` inside a longer list sits at |before| + j. */
  lemma IndexAfterPrefix(whole: seq<Row>, before: seq<Row>, part: seq<Row>, j: nat)
    requires before + part <= whole && j < |part|
    ensures |before| + j < |whole| && whole[|before| + j] == part[j]
  {
    assert (before + part)[|before| + j] == part[j];
  }

  /** Shard s's rows sit in the submission right after three rows per image of the
      shards before it. */
  lemma RowsOfShard(shards: seq<Shard>, s: nat, j: nat)
    requires forall q :: 0 <= q < |shards| ==> WellFormed(shards[q])
    requires s < |shards| && j < 3 * |shards[s].imageIds|
    ensures WellFormed(shards[s])
    ensures 3 * TotalImages(shards[..s]) + j < |Rows(shards)|
    ensures Covers(PredsDict(shards[s].heads), |shards[s].imageIds|)
    ensures |ShardRows(shards[s].imageIds, PredsDict(shards[s].heads))| == 3 * |shards[s].imageIds|
    ensures Rows(shards)[3 * TotalImages(shards[..s]) + j]
        == ShardRows(shards[s].imageIds, PredsDict(shards[s].heads))[j]
  {
    RowsStep(shards, s);
    RowsPrefix(shards, s + 1);
    IndexAfterPrefix(Rows(shards), Rows(shards[..s]), ShardRows(shards[s].imageIds, PredsDict(shards[s].heads)), j);
  }

  /** Row base+3k+c of the submission is component c's row of image k of shard s. */
  lemma RowAtComponent(shards: seq<Shard>, s: nat, k: nat, c: nat, j: nat)
    requires forall q :: 0 <= q < |shards| ==> WellFormed(shards[q])
    requires s < |shards| && k < |shards[s].imageIds| && c < 3
    requires j == 3 * TotalImages(shards[..s]) + 3 * k + c
    ensures WellFormed(shards[s])
    ensures Covers(PredsDict(shards[s].heads), |shards[s].imageIds|)
    ensures j < |Rows(shards)|
    ensures Rows(shards)[j]
      == Row(RowId(shards[s].imageIds[k], Components[c]), PredsDict(shards[s].heads)[Components[c]][k])
  {
    RowsOfShard(shards, s, 3 * k + c);
    ShardRowAt(shards[s].imageIds, PredsDict(shards[s].heads), k, c);
  }

  /** The rows base+3k, base+3k+1 and base+3k+2 of the submission are components 0, 1
      and 2 of image k of shard s. */
  lemma ImageInRows(shards: seq<Shard>, s: nat, k: nat, i: nat)
    requires forall q :: 0 <= q < |shards| ==> WellFormed(shards[q])
    requires s < |shards| && k < |shards[s].imageIds|
    requires i == 3 * TotalImages(shards[..s]) + 3 * k
    ensures WellFormed(shards[s]) && i + 2 < |Rows(shards)|
    ensures Covers(PredsDict(shards[s].heads), |shards[s].imageIds|)
    ensures Rows(shards)[i]
      == Row(RowId(shards[s].imageIds[k], Components[0]), PredsDict(shards[s].heads)[Components[0]][k])
    ensures Rows(shards)[i + 1]
      == Row(RowId(shards[s].imageIds[k], Components[1]), PredsDict(shards[s].heads)[Components[1]][k])
    ensures Rows(shards)[i + 2]
      == Row(RowId(shards[s].imageIds[k], Components[2]), PredsDict(shards[s].heads)[Components[2]][k])
  {
    RowAtComponent(shards, s, k, 0, i);
    RowAtComponent(shards, s, k, 1, i + 1);
    RowAtComponent(shards, s, k, 2, i + 2);
  }

  /** Three consecutive rows for components 0, 1 and 2 of image k are the consonant row
      with head 2's class, the root row with head 0's and the vowel row with head 1's. */
  lemma ComponentRows(rows: seq<Row>, i: nat, id: string, heads: seq<seq<int>>, k: nat)
    requires |heads| >= 3 && k < |heads[0]| && k < |heads[1]| && k < |heads[2]| && i + 2 < |rows|
    requires rows[i] == Row(RowId(id, Components[0]), PredsDict(heads)[Components[0]][k])
    requires rows[i + 1] == Row(RowId(id, Components[1]), PredsDict(heads)[Components[1]][k])
    requires rows[i + 2] == Row(RowId(id, Components[2]), PredsDict(heads)[Components[2]][k])
    ensures rows[i] == Row(RowId(id, "consonant_diacritic"), heads[2][k])
    ensures rows[i + 1] == Row(RowId(id, "grapheme_root"), heads[0][k])
    ensures rows[i + 2] == Row(RowId(id, "vowel_diacritic"), heads[1][k])
  {
  }

  /** Image k of shard s owns rows base+3k, base+3k+1 and base+3k+2 (base: three rows
      per image of the earlier shards): consonant from head 2, root from head 0, vowel
      from head 1, each paired with the id of that image. */
  lemma RowsAt(shards: seq<Shard>, s: nat, k: nat)
    requires forall q :: 0 <= q < |shards| ==> WellFormed(shards[q])
    requires s < |shards| && k < |shards[s].imageIds|
    ensures WellFormed(shards[s])
    ensures 3 * TotalImages(shards[..s]) + 3 * k + 2 < |Rows(shards)|
    ensures Rows(shards)[3 * TotalImages(shards[..s]) + 3 * k]
      == Row(RowId(shards[s].imageIds[k], "consonant_diacritic"), shards[s].heads[2][k])
    ensures Rows(shards)[3 * TotalImages(shards[..s]) + 3 * k + 1]
      == Row(RowId(shards[s].imageIds[k], "grapheme_root"), shards[s].heads[0][k])
    ensures Rows(shards)[3 * TotalImages(shards[..s]) + 3 * k + 2]
      == Row(RowId(shards[s].imageIds[k], "vowel_diacritic"), shards[s].heads[1][k])
  {
    var base := 3 * TotalImages(shards[..s]);
    var id := shards[s].imageIds[k];
    var heads := shards[s].heads;
    ImageInRows(shards, s, k, base + 3 * k);
    ComponentRows(Rows(shards), base + 3 * k, id, heads, k);
  }

  // ---------------------------------------------------------------------------
  // Steps of the loops in `test_func`

  /** Appending one row to both lists keeps them zipped with the rows. */
  lemma ZippedAppend(rowId: seq<string>, target: seq<int>, rows: seq<Row>, r: Row)
    requires Zipped(rowId, target, rows)
    ensures Zipped(rowId + [r.rowId], target + [r.target], rows + [r])
  {
  }

  lemma PrefixStep(before: seq<Row>, image: seq<Row>, c: nat)
    requires c < |image|
    ensures (before + image[..c]) + [image[c]] == before + image[..c + 1]
  {
    assert image[..c + 1] == image[..c] + [image[c]];
  }

  lemma ShardRowsStep(ids: seq<string>, k: nat, predsDict: map<string, seq<int>>)
    requires k < |ids| && Covers(predsDict, |ids|)
    ensures ShardRows(ids[..k + 1], predsDict) == ShardRows(ids[..k], predsDict) + ImageRows(ids[k], k, predsDict)
  {
    assert ids[..k + 1][..k] == ids[..k];
  }

  lemma RowsStep(shards: seq<Shard>, s: nat)
    requires forall q :: 0 <= q < |shards| ==> WellFormed(shards[q])
    requires s < |shards|
    ensures WellFormed(shards[s]) && Covers(PredsDict(shards[s].heads), |shards[s].imageIds|)
    ensures Rows(shards[..s + 1]) == Rows(shards[..s]) + ShardRows(shards[s].imageIds, PredsDict(shards[s].heads))
  {
    assert WellFormed(shards[s]);
    DictCovers(shards[s]);
    assert shards[..s + 1][..s] == shards[..s];
  }

  // ---------------------------------------------------------------------------
  // The procedure

  /** Lines 19-20: `for i, p in enumerate(preds_dict): preds_dict[p] = ...` — the i-th
      key of `preds_dict` takes head i, and no key is added or removed. */
  method DecodeHeads(predsDict: map<string, seq<int>>, heads: seq<seq<int>>)
    returns (updated: map<string, seq<int>>)
    requires predsDict.Keys == {HeadNames[0], HeadNames[1], HeadNames[2]}
    requires |heads| >= 3
    ensures updated.Keys == predsDict.Keys
    ensures forall i :: 0 <= i < 3 ==> updated[HeadNames[i]] == heads[i]
    ensures updated == PredsDict(heads)
  {
    updated := predsDict;
    var i := 0;
    while i < |HeadNames|
      invariant 0 <= i <= 3
      invariant updated.Keys == predsDict.Keys
      invariant forall q :: 0 <= q < i ==> updated[HeadNames[q]] == heads[q]
    {
      updated := updated[HeadNames[i] := heads[i]];
      i := i + 1;
    }
  }

  /** Lines 23-26: the three rows of image k, appended to both lists in component order. */
  method AppendImageRows(rowId: seq<string>, target: seq<int>, ghost rows: seq<Row>,
                         id: string, k: nat, predsDict: map<string, seq<int>>)
    returns (rowId': seq<string>, target': seq<int>)
    requires Covers(predsDict, k + 1) && Zipped(rowId, target, rows)
    ensures Zipped(rowId', target', rows + ImageRows(id, k, predsDict))
  {
    ghost var image := ImageRows(id, k, predsDict);
    rowId', target' := rowId, target;
    var c := 0;
    while c < |Components|
      invariant 0 <= c <= |Components|
      invariant Zipped(rowId', target', rows + image[..c])
    {
      var comp := Components[c];
      ZippedAppend(rowId', target', rows + image[..c], image[c]);
      PrefixStep(rows, image, c);
      rowId' := rowId' + [id + "_" + comp];
      target' := target' + [predsDict[comp][k]];
      c := c + 1;
    }
    assert image[..c] == image;
  }

  /** Lines 22-26: the rows of every image of one shard, appended image by image. */
  method AppendShardRows(rowId: seq<string>, target: seq<int>, ghost rows: seq<Row>,
                         ids: seq<string>, predsDict: map<string, seq<int>>)
    returns (rowId': seq<string>, target': seq<int>)
    requires Covers(predsDict, |ids|) && Zipped(rowId, target, rows)
    ensures Zipped(rowId', target', rows + ShardRows(ids, predsDict))
  {
    rowId', target' := rowId, target;
    var k := 0;
    while k < |ids|
      invariant 0 <= k <= |ids|
      invariant Zipped(rowId', target', rows + ShardRows(ids[..k], predsDict))
    {
      ghost var before := rowId';
      rowId', target' := AppendImageRows(rowId', target', rows + ShardRows(ids[..k], predsDict), ids[k], k, predsDict);
      ShardRowsStep(ids, k, predsDict);
      assert rows + ShardRows(ids[..k], predsDict) + ImageRows(ids[k], k, predsDict)
        == rows + ShardRows(ids[..k + 1], predsDict);
      k := k + 1;
    }
    assert ids[..k] == ids;
  }

  /** `test_func` without its I/O: the `row_id` and `target` lists it hands to the CSV
      writer, for the four test archives. */
  method TestFunc(shards: seq<Shard>) returns (rowId: seq<string>, target: seq<int>)
    requires |shards| == ShardCount
    requires forall s :: 0 <= s < |shards| ==> WellFormed(shards[s])
    ensures |rowId| == |target| == 3 * TotalImages(shards)
    ensures Zipped(rowId, target, Rows(shards))
  {
    var predsDict: map<string, seq<int>> :=
      map["grapheme_root" := [], "vowel_diacritic" := [], "consonant_diacritic" := []];
    rowId, target := [], [];
    var s := 0;
    while s < ShardCount
      invariant 0 <= s <= |shards|
      invariant predsDict.Keys == {HeadNames[0], HeadNames[1], HeadNames[2]}
      invariant Zipped(rowId, target, Rows(shards[..s]))
    {
      var shard := shards[s];
      predsDict := DecodeHeads(predsDict, shard.heads);
      RowsStep(shards, s);
      rowId, target := AppendShardRows(rowId, target, Rows(shards[..s]), shard.imageIds, predsDict);
      s := s + 1;
    }
    assert shards[..s] == shards;
  }
}
