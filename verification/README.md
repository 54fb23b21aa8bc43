# Attribute post-processing of the WMA network

This project models the post-processing step of the WMA pedestrian-attribute
recognition script. The network scores many attributes of a pedestrian
image. Those scores are averaged into one vector `pred`. This step turns
that vector into a 0/1 attribute vector:

- `_attr_group_norm(pred, s, t)` rewrites the attribute group `pred[s:t]`
  in place, from left to right. Each score becomes 1 if it equals the
  maximum of the group's current slice, and 0 otherwise.
  The maximum is taken again at every step, over a slice that the
  earlier steps have already rewritten.
- `recognize_attr` applies that normalisation to thirteen fixed, disjoint
  groups. It then thresholds every entry of the vector at 0.5.

Module `GroupNorm` (`attr_group_norm.dfy`) models `_attr_group_norm`:

- `AttrGroupNorm` is a method with a `while` loop over an `array<real>`.
- `SliceMax` is Python's `max` over the clamped slice.
- The specification functions are `NormPrefix` (the state after the first
  steps) and `Normalized` (the final state).
- Lemmas state what the rewrite does for each range of scores.

Module `Recognition` (`recognize_attr.dfy`) models the rest:

- `Groups` is the table of the thirteen groups.
- `NormalizeGroups` makes the calls in order.
- `Threshold` is the final `xrange` loop.
- `RecognizeAttr` is the whole tail.
- Lemmas relate the composite result to each group on its own.

What the code does, as modelled:

- The rewrite is a "first arg-max wins" one-hot encoding only when the
  group's scores lie in [0, 1). Scores of 1 or more can leave several ones
  (`[3, 2]` becomes `[1, 1]`). Negative scores can leave none (`[-2, -1]`
  becomes `[0, 0]`). Read quickly, the step looks like a grouped arg-max.
  The model follows the code and proves when the two agree.
- In Python, an index past the end of the array raises an `IndexError`.
  numpy first clamps the slice `pred[s:t]`. The model returns `ok == false`
  in that case, and the indices before the failing one are already
  rewritten. `recognize_attr` therefore fails exactly on vectors shorter
  than 92 entries, after the groups that fit have been normalised, and it
  thresholds nothing.
- Scores are `real`. The code only compares scores with each other and with
  0.5, and stores the constants 0 and 1, so no rounding is involved.

## Model

| member | source | states |
|---|---|---|
| `GroupNorm.Max` | lib/wma_net/test.py:77 | Python's `max` of a non-empty sequence: no element exceeds the result |
| `GroupNorm.MaxIn` | lib/wma_net/test.py:77 | the result of `max` is one of the elements |
| `GroupNorm.SliceMax` | lib/wma_net/test.py:77 | the scan over `pred[lo:hi]` returns the maximum of that slice |
| `GroupNorm.Rewritten` | lib/wma_net/test.py:77 | one step of the loop keeps the length and leaves 0 or 1 at the index it handles |
| `GroupNorm.RewrittenMeaning` | lib/wma_net/test.py:77 | one step sets the handled index to 1 exactly when no score of the current slice exceeds it, and changes no other index |
| `GroupNorm.NormPrefix` | lib/wma_net/test.py:76-77 | after the loop has handled indices `s..k-1`, the length is kept, each handled index holds 0 or 1, and every other index still holds its original score |
| `GroupNorm.Normalized` | lib/wma_net/test.py:75-78 | the group rewrite keeps the length, leaves every index outside `[s, t)` unchanged (so nothing changes when `s >= t`), and leaves 0 or 1 at every index of `[s, t)` inside the array |
| `GroupNorm.RewriteAt` | lib/wma_net/test.py:77 | the loop body sets `pred[i]` to 1 when it equals the maximum of the current slice and to 0 otherwise; no other entry changes |
| `GroupNorm.Completes` | lib/wma_net/test.py:76-77 | the call returns without an `IndexError` exactly when every index `range(s, t)` visits is inside the array |
| `GroupNorm.AttrGroupNorm` | lib/wma_net/test.py:75-78 | returns false exactly when the range runs past the end of the array (the `IndexError`); the array ends as `Normalized` of its old contents |
| `GroupNorm.BeforeArgMax` | lib/wma_net/test.py:76-77 | every index handled before the first arg-max becomes 0, because the current slice still holds the maximum |
| `GroupNorm.AtArgMax` | lib/wma_net/test.py:76-77 | the first arg-max becomes 1 exactly when it opens the group or its score is not negative |
| `GroupNorm.AfterArgMax` | lib/wma_net/test.py:76-77 | with scores in [0, 1), every index handled after the first arg-max becomes 0, because the 1 already written outranks it |
| `GroupNorm.NormPrefixStable` | lib/wma_net/test.py:76 | an index the loop has rewritten is never rewritten again |
| `GroupNorm.OneHot` | lib/wma_net/test.py:75-78 | with every score of the group in [0, 1), the group ends with 1 at its first arg-max (ties go to the lowest index) and 0 everywhere else |
| `GroupNorm.FirstArgMaxWins` | lib/wma_net/test.py:75-78 | for any scores, every index before the first arg-max ends 0, and the first arg-max ends 1 exactly when it opens the group or its score is not negative |
| `GroupNorm.NonNegativeKeepsOne` | lib/wma_net/test.py:75-78 | non-negative scores leave at least one 1 in a non-empty group |
| `GroupNorm.SingletonBecomesOne` | lib/wma_net/test.py:75-78 | a one-index group always ends 1, whatever its score |
| `GroupNorm.NormalizedLocal` | lib/wma_net/test.py:75-78 | what a group ends with depends only on the scores inside the group |
| `GroupNorm.LargeScoresLeaveSeveralOnes` | lib/wma_net/test.py:77 | the group `[3, 2]` ends `[1, 1]`: scores of 1 or more can leave several ones |
| `GroupNorm.NegativeScoresLeaveNone` | lib/wma_net/test.py:77 | the group `[-2, -1]` ends `[0, 0]`: negative scores can leave no one |
| `GroupNorm.FirstArgMaxUnique` | lib/wma_net/test.py:77 | a group has a single first index holding its maximum |
| `Recognition.ApplyGroups` | lib/wma_net/test.py:106-118 | applying the groups in order, and stopping after the first call that raises, keeps the length and leaves every index outside every group unchanged |
| `Recognition.Recognized` | lib/wma_net/test.py:106-121 | the post-processed vector has the input's length and, when no call raised, holds only 0s and 1s |
| `Recognition.NormalizeGroups` | lib/wma_net/test.py:106-118 | the calls succeed exactly when every group fits the vector; the array ends as the groups applied in order, stopping after the first call that raises |
| `Recognition.Thresholded` | lib/wma_net/test.py:120-121 | after the threshold loop every entry is 0 or 1, and an entry is 1 exactly when its score was at least 0.5 |
| `Recognition.Threshold` | lib/wma_net/test.py:120-121 | the in-place loop leaves `Thresholded` of the old contents |
| `Recognition.RecognizeAttr` | lib/wma_net/test.py:106-123 | the post-processing succeeds exactly when the vector has at least 92 entries; the array ends as the normalised groups, thresholded when no call raised |
| `Recognition.GroupsOrdered` | lib/wma_net/test.py:106-118 | the thirteen groups are non-empty, pairwise disjoint and in increasing order |
| `Recognition.GroupsFit` | lib/wma_net/test.py:106-118 | every group fits a vector exactly when the vector has at least 92 entries |
| `Recognition.Ungrouped` | lib/wma_net/test.py:106-118 | the indices outside every group are 36-50, 55-62, 83 and 92 onward |
| `Recognition.ApplyGroupsLocal` | lib/wma_net/test.py:106-118 | ordered groups that all fit do not interfere: each ends as if normalised alone on the original vector, and indices outside every group keep their score |
| `Recognition.ThresholdKeepsBinary` | lib/wma_net/test.py:120-121 | an entry that is already 0 or 1 passes the threshold unchanged |
| `Recognition.ThresholdIdempotent` | lib/wma_net/test.py:120-121 | thresholding twice gives the same vector as thresholding once |
| `Recognition.ThresholdedGroups` | lib/wma_net/test.py:106-121 | after ordered groups are normalised and the vector thresholded, a grouped entry is its group's own normalisation and an ungrouped entry is the threshold of its score |
| `Recognition.RecognizedGroup` | lib/wma_net/test.py:106-121 | on a vector of at least 92 entries, each entry of a group ends as the normalisation of that group alone |
| `Recognition.RecognizedUngrouped` | lib/wma_net/test.py:106-121 | on a vector of at least 92 entries, an entry outside every group is only thresholded: 1 when its score is at least 0.5, else 0 |
| `Recognition.GroupOneHot` | lib/wma_net/test.py:106-118 | a group that fits, with scores in [0, 1), is normalised to a one-hot vector at its first arg-max |
| `Recognition.RecognizedOneHot` | lib/wma_net/test.py:106-121 | a group whose scores lie in [0, 1) ends one-hot at its first arg-max after the whole post-processing |
| `Recognition.RecognizedFirstIsOne` | lib/wma_net/test.py:106-121 | the first attribute is a group of its own, so it always ends 1 |

## Left out

- `_get_image_blob` and `_get_blobs` (lib/wma_net/test.py:33-73) are left out. They do floating-point scale arithmetic and call OpenCV's resize and the `img_list_to_blob` helper, which is not part of this model.
- The network forward pass and `np.average` over the outputs (lib/wma_net/test.py:91-104) are left out. They run inside the external Caffe framework. The model takes the averaged vector as its input.
- `test_net` (lib/wma_net/test.py:126-160) is left out: image loading, timers, printing, pickling to disk and the database's `evaluate_mA`, which is not part of this model.
- Floating point is not modelled: scores are `real`. A NaN score would compare unequal to everything, and that case is not covered.
- AttrGroupNorm: requires a non-negative start index. Python would wrap a negative index around the end of the array; `recognize_attr` only passes non-negative constants.
- RecognizeAttr: the thirteen calls of the source are written as one loop, `NormalizeGroups`, over the constant table `Groups`. The calls happen in the same order and have the same effect.
- Both Python functions also return the array they rewrote. The model only rewrites the array in place; it does not model the returned alias.
