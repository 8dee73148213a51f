# Java-Utils collection and string helpers in Dafny

This project models the two helper classes of the `com.java.utils` package:

- `CollectionUtils`:
  - `merge`, the union of two maps where shared keys follow an override flag;
  - `getFreqMap`, the frequency map of the string forms of a list's elements;
  - `chunk`, which cuts a list into consecutive pieces of a fixed size;
  - `batchProcess`, which hands the non-null elements of a stream to a consumer in batches.
- `StringUtil`:
  - `reverse`, string reversal with a guard against blank input;
  - `interpolate`, in-place replacement of `${key}` placeholders in a `StringBuilder`.

The files:

- `results.dfy` (module `Results`) holds the shared values.
  - A Java reference that may be null is an `Option`.
  - An exception is an `Error` carried by a `Result`.
    - An explicit `throw new IllegalArgumentException(message)` is `IllegalArgument(message)`, with the source's message text.
    - The exception thrown by `new ArrayList<>(n)` for a negative `n` is `IllegalCapacity(n)`.
- `collection_utils.dfy` (module `CollectionUtils`) models the four collection operations.
  - Each is a method whose loop builds the result step by step, as the Java code does.
  - Each is proved against a specification of its result:
    - `merge`: the map union;
    - `getFreqMap`: `IsFrequencyMap`, defined with `Count`;
    - `chunk` and `batchProcess`: `IsChunking`, under which the pieces flatten back to the input.
  - Lemmas prove properties of those specifications:
    - the frequencies add up to the list length;
    - a cutting has ⌈n/k⌉ pieces;
    - the cutting is unique.
- `string_util.dfy` (module `StringUtil`) models `String.trim`, `reverse` and `interpolate`.
  - `reverse` is a function, because the source computes it in one expression.
  - `interpolate` edits a builder in place, so it is modelled as methods with loops:
    - the outer loop runs over the entries;
    - the inner `indexOf`/`replace` loop runs for one key.
  - These methods are proved equal to `Substituted`, which applies a left-to-right, non-overlapping replace-all (`ReplaceAll`) once per entry, in order.

Despite its name, `FileOps.cleanEmptyFiles` never deletes a file. It only prints (utils/src/main/java/com/java/utils/filemgmt/FileOps.java:42-43) and always returns false (lines 15 and 56). That class is not part of this model.

## Model

| member | source | states |
|---|---|---|
| CollectionUtils.Merge | utils/src/main/java/com/java/utils/CollectionUtils.java:30-54 | Fails with "Parameters provided are null or empty" exactly when both maps are null or empty. Otherwise the keys are the union of both maps' keys. A key in one map only keeps that map's value. A shared key takes mapB's value when `override` holds (`put`) and keeps mapA's otherwise (`putIfAbsent`). |
| CollectionUtils.CountPositive | utils/src/main/java/com/java/utils/CollectionUtils.java:78 | A key has a positive count exactly when it occurs in the list, so `getOrDefault(key, 0) + 1` creates exactly the keys present. |
| CollectionUtils.GetFreqMap | utils/src/main/java/com/java/utils/CollectionUtils.java:71-82 | A null or empty list gives the empty map. Otherwise the keys are exactly the distinct string forms, and each value is that form's number of occurrences. |
| CollectionUtils.FrequenciesSumToLength | utils/src/main/java/com/java/utils/CollectionUtils.java:56-82 | The values of a frequency map add up to the length of the list. |
| CollectionUtils.ChunkingCount | utils/src/main/java/com/java/utils/CollectionUtils.java:98-113 | A cutting of n elements into pieces of k has ⌈n/k⌉ pieces. |
| CollectionUtils.ChunkingUnique | utils/src/main/java/com/java/utils/CollectionUtils.java:84-93 | Two cuttings of the same list into pieces of the same size are equal. So the chunks are determined by the list and the size. |
| CollectionUtils.Chunk | utils/src/main/java/com/java/utils/CollectionUtils.java:94-114 | A null or empty list, or size 0, fails with the source's message. A non-empty list with a negative size fails in the `ArrayList` constructor. Otherwise the chunks concatenate to the list, each has between 1 and `size` elements, all but the last have exactly `size`, and there are ⌈n/size⌉ of them. |
| CollectionUtils.ChunkStep | utils/src/main/java/com/java/utils/CollectionUtils.java:101-108 | One iteration closes a full chunk and appends the element. The concatenation grows by exactly that element, and every closed chunk has `size` elements. |
| CollectionUtils.NonNull | utils/src/main/java/com/java/utils/CollectionUtils.java:134 | `filter(Objects::nonNull)` is no longer than the stream. It keeps every present element of the stream and nothing that is not one. |
| CollectionUtils.NonNullAppend | utils/src/main/java/com/java/utils/CollectionUtils.java:134 | Filtering keeps the order: filtering a concatenation gives the filtered first part followed by the filtered second part. |
| CollectionUtils.BatchStep | utils/src/main/java/com/java/utils/CollectionUtils.java:134-140 | Adding an element delivers the batch when it reaches the limit and then clears it. The delivered batches plus the pending one grow by exactly the element. |
| CollectionUtils.BatchProcess | utils/src/main/java/com/java/utils/CollectionUtils.java:127-146 | Fails with "Provided parameters are null" exactly when the stream or the consumer is null. A negative batch size fails in the `ArrayList` constructor. Otherwise the delivered batches cut the non-null elements, in order, into batches of `batchSize`, or of 5 when `batchSize` is 0. Nothing is delivered when there is no non-null element. |
| CollectionUtils.BatchProcessWithDefault | utils/src/main/java/com/java/utils/CollectionUtils.java:116-126 | Corrected per the documentation. It fails only for a null stream or consumer. Every batch size below 1 means batches of 5. |
| StringUtil.TrimStart | utils/src/main/java/com/java/utils/StringUtil.java:18 | `trim` drops exactly the leading chars up to U+0020. What remains is a suffix that starts with a char above U+0020. |
| StringUtil.TrimEnd | utils/src/main/java/com/java/utils/StringUtil.java:18 | `trim` drops exactly the trailing chars up to U+0020. What remains is a prefix that ends with a char above U+0020. |
| StringUtil.Trim | utils/src/main/java/com/java/utils/StringUtil.java:18 | `String.trim` gives at most the original length. A non-empty result starts and ends with a char above U+0020. The result is empty exactly when every char is at most U+0020. |
| StringUtil.IsBlank | utils/src/main/java/com/java/utils/StringUtil.java:18 | `s.trim().isEmpty()` holds exactly when every char of `s` is at most U+0020. |
| StringUtil.Reversed | utils/src/main/java/com/java/utils/StringUtil.java:33 | `StringBuilder.reverse` gives a string of the same length whose char i is char n-1-i of the input. |
| StringUtil.Reverse | utils/src/main/java/com/java/utils/StringUtil.java:16-35 | Fails with the source's message exactly for a null string or one that trims to nothing. Otherwise the result has the same length and holds the chars in reverse order. This includes the length-1 shortcut. |
| StringUtil.MirrorNotBlank | utils/src/main/java/com/java/utils/StringUtil.java:18 | The reverse of a non-blank string is not blank. |
| StringUtil.ReverseMirror | utils/src/main/java/com/java/utils/StringUtil.java:16-35 | The mirror image of an accepted string is accepted and reverses back to that string. |
| StringUtil.ReverseInvolution | utils/src/main/java/com/java/utils/StringUtil.java:16-35 | An accepted string reverses to an accepted, non-empty string, and reversing that gives the input back. |
| StringUtil.Placeholder | utils/src/main/java/com/java/utils/StringUtil.java:61 | `"${" + key + "}"` is three chars longer than the key. It opens with the `${` marker and holds the key between the marker and the closing char. |
| StringUtil.PlaceholderInjective | utils/src/main/java/com/java/utils/StringUtil.java:61 | Distinct keys give distinct placeholders. |
| StringUtil.ReplaceRangeParts | utils/src/main/java/com/java/utils/StringUtil.java:64 | `StringBuilder.replace(start, end, v)` keeps the text before `start`, puts `v` at `start` and keeps the text from `end` on behind it. The length changes by `|v| - (end - start)`. |
| StringUtil.IndexOf | utils/src/main/java/com/java/utils/StringUtil.java:62-65 | `indexOf(p, from)` returns the first occurrence of `p` at or after `from`, or -1 exactly when there is none. |
| StringUtil.ReplaceOnce | utils/src/main/java/com/java/utils/StringUtil.java:64-65 | One `replace` plus `indexOf(exactKey, index)` keeps the replace-all invariant and shortens what is left to scan, for a value without `$`. |
| StringUtil.ReplacePlaceholder | utils/src/main/java/com/java/utils/StringUtil.java:61-66 | For a value without `$`, the inner loop leaves the builder equal to the left-to-right, non-overlapping replace-all of `${key}` by the value. |
| StringUtil.Interpolate | utils/src/main/java/com/java/utils/StringUtil.java:49-70 | Fails with the source's message exactly for a null template or one that trims to nothing. Null or empty values return the template unchanged. Otherwise the result is the template after one replace-all pass per entry, in iteration order, each pass running on the previous one's output. |
| StringUtil.SubstitutedStep | utils/src/main/java/com/java/utils/StringUtil.java:60-66 | Each further entry runs one replace-all pass of its placeholder on the output of the entries before it. |
| StringUtil.SubstitutedWithoutMarker | utils/src/main/java/com/java/utils/StringUtil.java:59-68 | A template with no `${` comes back unchanged whatever the entries, because every searched key starts with `${`. |
| StringUtil.ReplaceByItself | utils/src/main/java/com/java/utils/StringUtil.java:61-66 | A replace-all of a placeholder by itself leaves the text unchanged. This is the result the loop fails to reach for such a value. |
| StringUtil.SelfPlaceholderStalls | utils/src/main/java/com/java/utils/StringUtil.java:62-66 | When a value equals its own placeholder, replacing an occurrence leaves the builder unchanged, and `indexOf(exactKey, index)` finds the same index again. So the loop as written never ends. |
| StringUtil.ContainedPlaceholderPersists | utils/src/main/java/com/java/utils/StringUtil.java:62-66 | When a value merely contains its own placeholder (value `a${k}` for key `k`), the search after a replacement still finds an occurrence. Every pass leaves the loop condition true, so the loop never ends. |
| StringUtil.ReplaceOnceResumingAfterValue | utils/src/main/java/com/java/utils/StringUtil.java:64-65 | Corrected pass that searches again from behind the inserted value. It keeps the replace-all invariant and shortens what is left to scan, for every value. |
| StringUtil.ReplacePlaceholderResumingAfterValue | utils/src/main/java/com/java/utils/StringUtil.java:61-66 | The corrected inner loop ends for every value, with the replace-all of `${key}` by the value. |
| StringUtil.InterpolateResumingAfterValue | utils/src/main/java/com/java/utils/StringUtil.java:49-70 | Corrected `interpolate`: the same errors and results as `Interpolate`, with no restriction on the values. |

## Left out

- `FileOps.cleanEmptyFiles` is not part of this model. It is a filesystem walk with regular-expression matching and console output, which is I/O and library code.
- `HashMap` iteration order: maps are Dafny maps. The entries `interpolate` iterates over are a sequence of key/value pairs, so their order is a parameter.
- `Object.toString()` is a total function parameter `toString` of `GetFreqMap`. The NullPointerException a null element raises there is not modelled.
- The consumer of `batchProcess`:
  - `consumerPresent` says whether it is non-null;
  - the batches it receives are returned as a sequence of snapshots;
  - a consumer that keeps a reference to the one reused, later cleared list is not modelled;
  - a consumer that throws is not modelled.
- BatchProcess: a parallel stream is not modelled. There `forEach` (CollectionUtils.java:134) runs the lambda concurrently on the unsynchronised buffer, with no encounter order. The promise that the batches hold the non-null elements in order holds for sequential streams only.
- Chunk and BatchProcess: the capacity that `new ArrayList<>(size)` and `new ArrayList<>(batchSize)` allocate up front (CollectionUtils.java:100, 105, 133) is not modelled. For a huge size such as `Integer.MAX_VALUE`, Java fails with OutOfMemoryError, where the model returns `Ok`.
- `Stream` laziness and single-use are not modelled. A stream is the finite sequence of its elements, null elements included.
- Merge: a null value stored in `mapA` is not modelled. With `override` false, `putIfAbsent` would replace it by `mapB`'s value.
- Reverse: a char here is a Unicode scalar value, not a UTF-16 code unit. A supplementary character counts 1 here and 2 in Java's `length()`, so the `length() == 1` test of StringUtil.java:23 is not modelled for it. The same holds for the positions `indexOf` returns. A lone surrogate cannot be represented.
- Interpolate: a null key in `values` is not modelled. It raises no exception: its placeholder is `${null}`. A null value is not modelled either; it raises a NullPointerException once `replace` (StringUtil.java:64) reaches it.
- Merge: a null key in `mapA` or `mapB` is not modelled. `HashMap` allows one, but map keys here are strings.
- 32-bit `int` widths are not modelled: sizes, indices and frequency counts are unbounded. No list or string reaches 2^31 elements.
- ReplacePlaceholder: requires a value without `$`. With a `$` in the value, the search that restarts at the inserted value can match inside or across it, and the loop need not end (see Findings).
- Interpolate: requires every value to be without `$`, for the same reason. `InterpolateResumingAfterValue` has no such requirement.

## Findings

| source | as written | input that shows it | evidently intended | confidence | as-written member | corrected member |
|---|---|---|---|---|---|---|
| utils/src/main/java/com/java/utils/StringUtil.java:62-66 | after each `replace`, the search resumes at `index`, the start of the inserted value | key `k`, value `${k}`, template `${k}`: the builder never changes and `indexOf` keeps returning 0. With value `a${k}`, the builder grows on every pass (StringUtil.ContainedPlaceholderPersists) | replace every occurrence once; resume the search behind the inserted value, at `index + value.length()` | high (not executed) | StringUtil.SelfPlaceholderStalls | StringUtil.InterpolateResumingAfterValue |
| utils/src/main/java/com/java/utils/CollectionUtils.java:121-133 | `new ArrayList<>(batchSize)` runs before the default of 5 is applied | non-null stream and consumer with `batchSize` -1: IllegalArgumentException "Illegal Capacity: -1" | the documentation promises a batch size of 5 whenever `batchSize` is less than 1 | high (not executed) | CollectionUtils.BatchProcess | CollectionUtils.BatchProcessWithDefault |
