# Bengali grapheme pipeline: multi-output batches and submission rows

This project models, in Dafny, the two parts of the Bengali.AI handwritten-grapheme
pipeline that hold logic of their own.

- **`MultiOutputDataGenerator.flow`** (`batch_generator.py`) trains one network with three
  classification heads: grapheme root, vowel diacritic and consonant diacritic. Keras's
  image augmenter carries only one label array, so `flow` does three things:
  - it glues the heads' one-hot label arrays together column by column, in the dict's
    insertion order;
  - it records each head's width and the order of the names;
  - it hands the packed array to the augmenter, then cuts every label batch back into one
    slice per head with a running column offset.

  The scheme only works if packing and then cutting loses nothing, whatever rows the
  augmenter puts into a batch and in whatever order.
- **`test_func`** (`tester.py`) writes the submission. For each of the four test archives
  and each image id, it appends three `(row_id, target)` rows in the order consonant,
  root, vowel. The `row_id` is `id + "_" + component`, and the target is that component's
  predicted class for the image.

Files:

- `matrices.dfy` (module `Matrices`): a label array is a value `Matrix(cols, rows)` with a
  rectangularity predicate. The width is stored, so an array with no rows keeps its
  `shape[1]`. The module also defines column-wise concatenation, column slicing and row
  selection.
- `batch_generator.dfy` (module `BatchGenerator`):
  - The dict `y` is a sequence of (name, matrix) pairs with distinct names, in insertion
    order.
  - `Concat` and `Split` are the specification.
  - `Pack`, `SplitBatch` and `Flow` are the loops of `flow`, each proved against that
    specification.
  - The lemmas prove the round trip, the alignment of labels under any row selection, and
    that the column spans tile the packed array.
- `tester.dfy` (module `Tester`):
  - `Rows` specifies the submission.
  - `DecodeHeads`, `AppendImageRows`, `AppendShardRows` and `TestFunc` are the loops of
    `test_func` (the inner two as methods of their own). `DecodeHeads` is proved against
    `PredsDict`, and the other three against `Rows`.
  - The lemmas give the row count and the exact position and contents of every row. They
    also prove that earlier rows are never changed.

The Keras iterator behind `super().flow` is abstracted. `Flow` takes the batches the
iterator draws as sequences of row indices, and a batch's images are the same rows of
`x`. So `Flow`'s contract says that, for every batch and every head, the yielded slice is
exactly that head's own labels for the images in the batch.

Two facts about `flow` shape the model:

- The code records only each output's width. It recomputes the start offsets for every
  batch with the running `i` (lines 34-38).
- `np.concatenate` detects a row-count mismatch when the offending output is reached
  (line 27). The model reports it as `RowCountMismatch` with the name of the first output
  whose row count differs from the first output's. The loop has no other side effect, so
  only the error is observable.

## Model

| member | source | states |
|---|---|---|
| `Matrices.HConcat` | capstone_projects/capstone2/bengaliai-cv19/model/batch_generator.py:27 | column-wise concatenation keeps the row count, adds the widths, and is rectangular when both inputs are |
| `Matrices.HConcatEntry` | capstone_projects/capstone2/bengaliai-cv19/model/batch_generator.py:27 | entry c of a concatenated row is entry c of the left row when c is a left column, and entry c-w of the right row otherwise (w the left width) |
| `Matrices.ColumnSlice` | capstone_projects/capstone2/bengaliai-cv19/model/batch_generator.py:37 | `flowy[:, i:i+w]` is rectangular, has every row of the batch and width w |
| `Matrices.ColumnSliceEntry` | capstone_projects/capstone2/bengaliai-cv19/model/batch_generator.py:37 | entry c of row j of `flowy[:, i:i+w]` is column i+c of row j of `flowy` |
| `Matrices.SelectRows` | capstone_projects/capstone2/bengaliai-cv19/model/batch_generator.py:30-32 | a batch drawn by the augmenter keeps the width, has one row per index, and row j is the indexed row of the source |
| `Matrices.SelectAll` | capstone_projects/capstone2/bengaliai-cv19/model/batch_generator.py:30-32 | selecting rows 0..n-1 in order gives the array back |
| `BatchGenerator.Concat` | capstone_projects/capstone2/bengaliai-cv19/model/batch_generator.py:20-27 | the packed label array has the outputs' common row count and as many columns as the sum of all widths, and is rectangular when they are |
| `BatchGenerator.StartMonotone` | capstone_projects/capstone2/bengaliai-cv19/model/batch_generator.py:34-38 | the running offset never decreases as outputs are passed |
| `BatchGenerator.StartBound` | capstone_projects/capstone2/bengaliai-cv19/model/batch_generator.py:34-38 | output k's slice ends exactly where output k+1's starts, and never past the total width |
| `BatchGenerator.SpansDisjoint` | capstone_projects/capstone2/bengaliai-cv19/model/batch_generator.py:34-38 | the slices of two different outputs never share a column |
| `BatchGenerator.SpansCover` | capstone_projects/capstone2/bengaliai-cv19/model/batch_generator.py:34-38 | every column of the packed array falls into some output's slice |
| `BatchGenerator.ConcatEntry` | capstone_projects/capstone2/bengaliai-cv19/model/batch_generator.py:23-27 | row r of the packed array holds row r of output k at columns Start(k)..Start(k)+width-1, outputs in insertion order |
| `BatchGenerator.Split` | capstone_projects/capstone2/bengaliai-cv19/model/batch_generator.py:33-38 | `target_dict` has one entry per recorded name; the entries themselves are stated by `SplitAt` |
| `BatchGenerator.SplitStep` | capstone_projects/capstone2/bengaliai-cv19/model/batch_generator.py:35-38 | one more pass of the inner loop appends the next name with the columns from the running offset to that offset plus its width, and moves the offset to where the next output's slice starts |
| `BatchGenerator.WidthMap` | capstone_projects/capstone2/bengaliai-cv19/model/batch_generator.py:23-28 | the `target_lengths` built by the loop has every output's name as a key and no key that is not an output's name |
| `BatchGenerator.SplitAt` | capstone_projects/capstone2/bengaliai-cv19/model/batch_generator.py:33-38 | entry k of `target_dict` is output k's name with the columns from the running offset (the sum of the earlier widths) to that offset plus its width, which never pass the array's width |
| `BatchGenerator.SliceOfSelect` | capstone_projects/capstone2/bengaliai-cv19/model/batch_generator.py:30-38 | output k's columns of any batch of packed rows are exactly that batch of output k's own rows |
| `BatchGenerator.SplitSelect` | capstone_projects/capstone2/bengaliai-cv19/model/batch_generator.py:20-38 | for any selection or reordering of whole packed rows, each output's slice equals the same selection of that output's own rows |
| `BatchGenerator.SplitSelectAt` | capstone_projects/capstone2/bengaliai-cv19/model/batch_generator.py:33-38 | output k of the split batch is output k's own name paired with the same batch of output k's rows |
| `BatchGenerator.RoundTrip` | capstone_projects/capstone2/bengaliai-cv19/model/batch_generator.py:20-38 | splitting the unshuffled packed array gives back every (name, label array) pair exactly |
| `BatchGenerator.ThreeHeadLayout` | capstone_projects/capstone2/bengaliai-cv19/model/batch_generator.py:34-38 | heads root, vowel and consonant with 168, 11 and 7 classes (as passed in experiments.py and sized in model_creator.py) pack into 186 columns with slices starting at 0, 168 and 179, and come back unchanged |
| `BatchGenerator.ConcatStep` | capstone_projects/capstone2/bengaliai-cv19/model/batch_generator.py:24-27 | concatenating the next output whose row count matches extends the packed array by that output |
| `BatchGenerator.MismatchStep` | capstone_projects/capstone2/bengaliai-cv19/model/batch_generator.py:27 | a row-count clash at some output means the outputs do not all share one row count |
| `BatchGenerator.RecordStep` | capstone_projects/capstone2/bengaliai-cv19/model/batch_generator.py:28 | when names are distinct, writing the next output's width keeps `target_lengths` holding exactly the widths of the outputs seen so far |
| `BatchGenerator.WidthMapRecords` | capstone_projects/capstone2/bengaliai-cv19/model/batch_generator.py:23-28 | writing every output's width in turn leaves `target_lengths` with one entry per output, its width, and no other key |
| `BatchGenerator.BookkeepingStep` | capstone_projects/capstone2/bengaliai-cv19/model/batch_generator.py:28-29 | one more output adds its width to `target_lengths` and appends its name to `ordered_outputs` |
| `BatchGenerator.Pack` | capstone_projects/capstone2/bengaliai-cv19/model/batch_generator.py:20-29 | fails exactly when `y` is empty (NoOutputs) or the row counts differ (RowCountMismatch naming the first output that differs); otherwise `targets` is the packed array, `ordered_outputs` is the keys in insertion order and `target_lengths` maps each key to its width and holds nothing else |
| `BatchGenerator.SplitBatch` | capstone_projects/capstone2/bengaliai-cv19/model/batch_generator.py:33-38 | `target_dict` has exactly the names of `ordered_outputs`, in order; each slice has the batch's row count and that output's recorded width, and it is the slice that starts at the running offset |
| `BatchGenerator.Flow` | capstone_projects/capstone2/bengaliai-cv19/model/batch_generator.py:6-40 | fails exactly when `y` is empty, the row counts differ, or `x` and the labels differ in length; otherwise it yields one pair per drawn batch: the batch's images, and for every output in insertion order the same rows of that output's labels |
| `Tester.PredsDict` | capstone_projects/capstone2/bengaliai-cv19/model/tester.py:19-20 | after the heads are assigned, `preds_dict` has exactly the keys `grapheme_root`, `vowel_diacritic` and `consonant_diacritic`, holding heads 0, 1 and 2 in that order |
| `Tester.ImageRows` | capstone_projects/capstone2/bengaliai-cv19/model/tester.py:23-26 | the inner loop over `components` makes three rows for one image |
| `Tester.ImageRowsOrder` | capstone_projects/capstone2/bengaliai-cv19/model/tester.py:23-26 | an image's three rows are `id_consonant_diacritic`, `id_grapheme_root` and `id_vowel_diacritic`, in that order, each with that component's class for the image |
| `Tester.ShardRows` | capstone_projects/capstone2/bengaliai-cv19/model/tester.py:22-26 | a shard adds three rows per image id |
| `Tester.Rows` | capstone_projects/capstone2/bengaliai-cv19/model/tester.py:11-26 | the submission over all shards has three rows per image |
| `Tester.DictCovers` | capstone_projects/capstone2/bengaliai-cv19/model/tester.py:19-26 | once a shard's heads are assigned, every component has a prediction for every image id of the shard |
| `Tester.DecodeHeads` | capstone_projects/capstone2/bengaliai-cv19/model/tester.py:19-20 | `preds_dict` keeps its three keys; head 0 goes to `grapheme_root`, head 1 to `vowel_diacritic` and head 2 to `consonant_diacritic`, following the dict's insertion order |
| `Tester.ShardRowAt` | capstone_projects/capstone2/bengaliai-cv19/model/tester.py:22-26 | row 3k+c of a shard has id `ids[k] + "_" + Components[c]` and the target `preds_dict[Components[c]][k]` |
| `Tester.RowsPrefix` | capstone_projects/capstone2/bengaliai-cv19/model/tester.py:11-26 | the rows of the earlier shards are a prefix of the final lists, so later shards only append |
| `Tester.RowsOfShard` | capstone_projects/capstone2/bengaliai-cv19/model/tester.py:11-26 | shard s's rows come right after three rows per image of shards 0..s-1 |
| `Tester.IndexAfterPrefix` | capstone_projects/capstone2/bengaliai-cv19/model/tester.py:11-26 | when the rows so far followed by a shard's rows are a prefix of the submission, the shard's row j sits at the number of earlier rows plus j |
| `Tester.RowAtComponent` | capstone_projects/capstone2/bengaliai-cv19/model/tester.py:19-26 | row j = base+3k+c of the submission, with base three rows per image of the earlier shards, is `ids[k] + "_" + components[c]` with the class `preds_dict[components[c]][k]` of shard s |
| `Tester.ImageInRows` | capstone_projects/capstone2/bengaliai-cv19/model/tester.py:22-26 | image k of shard s owns rows base+3k, base+3k+1 and base+3k+2 of the submission, one per entry of `components` in order |
| `Tester.ComponentRows` | capstone_projects/capstone2/bengaliai-cv19/model/tester.py:19-26 | reading `components` and the head assignment together: the three rows of an image carry the consonant class from head 2, the root class from head 0 and the vowel class from head 1 |
| `Tester.RowsAt` | capstone_projects/capstone2/bengaliai-cv19/model/tester.py:8-26 | image k of shard s owns three consecutive rows, `id_consonant_diacritic` with head 2's class, `id_grapheme_root` with head 0's and `id_vowel_diacritic` with head 1's |
| `Tester.AppendImageRows` | capstone_projects/capstone2/bengaliai-cv19/model/tester.py:23-26 | the inner loop appends exactly image k's three rows, in component order, to both lists and keeps them zipped |
| `Tester.AppendShardRows` | capstone_projects/capstone2/bengaliai-cv19/model/tester.py:22-26 | the loop over a shard's ids appends exactly that shard's rows, image after image, to both lists |
| `Tester.TestFunc` | capstone_projects/capstone2/bengaliai-cv19/model/tester.py:5-28 | `row_id` and `target` always have the same length, three times the number of images of the four shards, and entry j of each is field by field row j of the specified submission |

## Left out

- The Keras `ImageDataGenerator` iterator (`super().flow`) is replaced by the list of
  batches it draws. Each batch is a sequence of row indices into the packed array. Left
  out: the rotation and shift applied to the images, the shuffling and batch-size logic
  that choose the indices, and the endless, lazy nature of the generator. `Flow` covers a
  finite run of batches, and the model assumes every index is a row of `x`. In the source,
  errors only surface when the first batch is drawn.
- `Flow`: models Keras's own check that `x` and the labels have the same length as the
  error `LengthMismatch`. That check belongs to the Keras iterator, which is not part of
  this model.
- `Flow`: `flow` accepts `sample_weight`, `seed`, `save_to_dir`, `save_prefix`,
  `save_format` and `subset` but never forwards them to Keras. They are not parameters
  of the model.
- `Pack`: with an empty `y`, `targets` stays `None` and Keras yields bare image batches
  with no labels. Unpacking `flowx, flowy` (line 30) fails for most batch sizes. When a
  batch holds exactly two images, it succeeds and the source yields `(batch_x[0], {})`.
  The model reports `NoOutputs` for an empty `y`, and so does not model that two-image
  case either. A missing `y` (the default `None`)
  would raise an AttributeError; it cannot be expressed, because `y` is a sequence.
- 1-D label arrays, where `target.shape[1]` raises, cannot be expressed: a `Matrix` is
  always two-dimensional.
- `SplitBatch`: requires the batch to have exactly as many columns as the recorded widths
  add up to. Every batch cut from the packed array meets this. numpy's clamping of slice
  bounds beyond the width is not modelled.
- `TestFunc`: reading the parquet archives, `reshape`, `model.predict`, `np.argmax` over
  the float probabilities, the DataFrame, the CSV file and the `del` statements are I/O,
  floating point and library calls. A shard arrives as its image ids plus, per head, the
  already decoded class of every image.
- `TestFunc`: requires at least three heads, each with at least one prediction per image
  id. The source would raise an IndexError otherwise; that crash is not modelled.
- data_loader.py (parquet merge, one-hot encoding, train/test split), image_processor.py
  (Otsu thresholding and resizing), experiments.py (mlflow logging and fit orchestration,
  including `steps = x_train.shape[0] // batch_size`), run_checker.py (filesystem and
  regex scraping), model_creator.py, plotter.py and debugger.py are not part of this
  model. They are thin wrappers around libraries, I/O or plotting.
