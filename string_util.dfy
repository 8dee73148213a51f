/**
 * Model of `com.java.utils.StringUtil`: string reversal and `${key}`
 * template interpolation.
 *
 * A Java `String` is a `string` here, a sequence of Unicode scalar values
 * where Java counts UTF-16 code units; a null argument is `None`. `reverse` is a function; `interpolate`, which edits a
 * `StringBuilder` in place, is a method whose builder is a local string that
 * each replacement reassigns.
 */
module StringUtil {
  import opened Results

  // ---------------------------------------------------------------------------
  // String.trim
  // ---------------------------------------------------------------------------

  /** `String.trim` strips every char whose code is at most U+0020. */
  predicate IsTrimmed(c: char) {
    c <= ' '
  }

  /** `s` without its leading trimmed chars. */
  function TrimStart(s: string): (r: string)
    ensures |r| <= |s| && r == s[|s| - |r|..]
    ensures forall i :: 0 <= i < |s| - |r| ==> IsTrimmed(s[i])
    ensures r != [] ==> !IsTrimmed(r[0])
  {
    if s != [] && IsTrimmed(s[0]) then TrimStart(s[1..]) else s
  }

  /** `s` without its trailing trimmed chars. */
  function TrimEnd(s: string): (r: string)
    ensures |r| <= |s| && r == s[..|r|]
    ensures forall i :: |r| <= i < |s| ==> IsTrimmed(s[i])
    ensures r != [] ==> !IsTrimmed(r[|r| - 1])
  {
    if s != [] && IsTrimmed(s[|s| - 1]) then TrimEnd(s[..|s| - 1]) else s
  }

  /** Every char of `s` is at most U+0020, so `trim` removes all of them. */
  predicate AllTrimmed(s: string) {
    forall i :: 0 <= i < |s| ==> IsTrimmed(s[i])
  }

  /**
   * `String.trim()`: what is left once the trimmed chars at both ends are cut.
   * Unless nothing is left, it starts and ends with a char above U+0020, and
   * nothing is left exactly when every char is trimmed.
   */
  function Trim(s: string): (r: string)
    ensures |r| <= |s|
    ensures r != [] ==> !IsTrimmed(r[0]) && !IsTrimmed(r[|r| - 1])
    ensures r == [] <==> AllTrimmed(s)
  {
    var t := TrimStart(s);
    var r := TrimEnd(t);
    assert t != [] ==> !IsTrimmed(t[0]) && t[0] == s[|s| - |t|] && r != [];
    r
  }

  /** `s.trim().isEmpty()` */
  predicate IsBlank(s: string): (b: bool)
    ensures b <==> AllTrimmed(s)
  {
    Trim(s) == []
  }

  // ---------------------------------------------------------------------------
  // reverse
  // ---------------------------------------------------------------------------

  const ReverseMessage := "strToRev must not be null and should contain characters apart from spaces"

  /** `new StringBuilder(s).reverse().toString()`, char by char. */
  function Reversed(s: string): (r: string)
    ensures |r| == |s|
    ensures forall i :: 0 <= i < |s| ==> r[i] == s[|s| - 1 - i]
  {
    if s == [] then [] else [s[|s| - 1]] + Reversed(s[..|s| - 1])
  }

  /**
   * Reverses a string. A null string and one that trims to nothing are
   * rejected; a one-char string is returned as it is.
   */
  function Reverse(strToRev: Option<string>): (r: Result<string>)
    ensures r.Err? <==> strToRev.None? || IsBlank(strToRev.value)
    ensures r.Err? ==> r.error == IllegalArgument(ReverseMessage)
    ensures r.Ok? ==> |r.value| == |strToRev.value|
    ensures r.Ok? ==> forall i :: 0 <= i < |r.value| ==> r.value[i] == strToRev.value[|strToRev.value| - 1 - i]
  {
    if strToRev.None? || IsBlank(strToRev.value) then
      Err(IllegalArgument(ReverseMessage))
    else if |strToRev.value| == 1 then
      Ok(strToRev.value)
    else
      Ok(Reversed(strToRev.value))
  }

  /** A string with the chars of a non-blank string in reverse order is not blank either. */
  lemma MirrorNotBlank(s: string, r: string)
    requires !IsBlank(s) && |r| == |s|
    requires forall i :: 0 <= i < |s| ==> r[i] == s[|s| - 1 - i]
    ensures !IsBlank(r)
  {
    var j :| 0 <= j < |s| && !IsTrimmed(s[j]);
    assert !IsTrimmed(r[|s| - 1 - j]);
  }

  /** Reversing an accepted string twice gives it back. */
  lemma ReverseInvolution(s: string)
    requires Reverse(Some(s)).Ok?
    ensures Reverse(Some(s)).value != []
    ensures Reverse(Some(Reverse(Some(s)).value)) == Ok(s)
  {
    ReverseMirror(s, Reverse(Some(s)).value);
  }

  /** A mirror image of an accepted string is accepted, and reverses back to it. */
  lemma ReverseMirror(s: string, r: string)
    requires !IsBlank(s) && |r| == |s|
    requires forall i :: 0 <= i < |s| ==> r[i] == s[|s| - 1 - i]
    ensures r != [] && Reverse(Some(r)) == Ok(s)
  {
    MirrorNotBlank(s, r);
    MirrorTwice(s, r, Reverse(Some(r)).value);
  }

  /** Mirroring a string twice gives it back. */
  lemma MirrorTwice(s: string, r: string, t: string)
    requires |r| == |s| && forall i :: 0 <= i < |s| ==> r[i] == s[|s| - 1 - i]
    requires |t| == |r| && forall i :: 0 <= i < |r| ==> t[i] == r[|r| - 1 - i]
    ensures t == s
  {
    assert forall i :: 0 <= i < |s| ==> t[i] == s[i];
  }

  // ---------------------------------------------------------------------------
  // interpolate
  // ---------------------------------------------------------------------------

  const TemplateMessage := "template is null or contains only whitespaces"

  /**
   * The text `${key}` that stands for `key` in a template: it opens with the
   * `${` marker and holds the key between the marker and the closing `}`.
   */
  function Placeholder(key: string): (p: string)
    ensures |p| == |key| + 3 && p[0] == '$' && MatchesAt(p, "${", 0)
    ensures p[2..|p| - 1] == key
  {
    "${" + key + "}"
  }

  /** Distinct keys stand for distinct placeholders. */
  lemma PlaceholderInjective(a: string, b: string)
    requires Placeholder(a) == Placeholder(b)
    ensures a == b
  {
    assert a == Placeholder(a)[2..|Placeholder(a)| - 1];
  }

  /** `p` occurs in `s` at position `i`. */
  predicate MatchesAt(s: string, p: string, i: int) {
    0 <= i && i + |p| <= |s| && s[i..i + |p|] == p
  }

  /** `StringBuilder.indexOf(p, from)`: the first position at or after `from` where `p` occurs, or -1. */
  function IndexOf(s: string, p: string, from: nat): (r: int)
    requires p != []
    ensures r == -1 || (from <= r && MatchesAt(s, p, r))
    ensures r == -1 ==> forall j :: from <= j ==> !MatchesAt(s, p, j)
    ensures r != -1 ==> forall j :: from <= j < r ==> !MatchesAt(s, p, j)
    decreases |s| - from
  {
    if from + |p| > |s| then -1
    else if MatchesAt(s, p, from) then from
    else IndexOf(s, p, from + 1)
  }

  /** `StringBuilder.replace(start, end, v)` */
  function ReplaceRange(s: string, start: nat, end: nat, v: string): string
    requires start <= end <= |s|
  {
    s[..start] + v + s[end..]
  }

  /**
   * Left-to-right, non-overlapping replacement of every occurrence of `p` in
   * `s[i..]` by `v`: after a replacement the scan resumes behind the replaced
   * occurrence.
   */
  function ReplaceFrom(s: string, p: string, v: string, i: nat): string
    requires p != []
    decreases |s| - i
  {
    if i >= |s| then []
    else if MatchesAt(s, p, i) then v + ReplaceFrom(s, p, v, i + |p|)
    else [s[i]] + ReplaceFrom(s, p, v, i + 1)
  }

  /** Replace-all of `p` by `v` in `s` (`String.replace(p, v)`). */
  function ReplaceAll(s: string, p: string, v: string): string
    requires p != []
  {
    ReplaceFrom(s, p, v, 0)
  }

  /** The template after a replace-all pass for each entry in turn, each pass running on the previous one's output. */
  function Substituted(template: string, entries: seq<(string, string)>): string {
    if entries == [] then template
    else
      var (key, value) := entries[|entries| - 1];
      ReplaceAll(Substituted(template, entries[..|entries| - 1]), Placeholder(key), value)
  }

  /** A stretch without occurrences is copied as it is. */
  lemma {:induction false} ReplaceFromSkip(s: string, p: string, v: string, i: nat, m: nat)
    requires p != [] && i <= m <= |s|
    requires forall j :: i <= j < m ==> !MatchesAt(s, p, j)
    ensures ReplaceFrom(s, p, v, i) == s[i..m] + ReplaceFrom(s, p, v, m)
    decreases m - i
  {
    if i < m {
      assert !MatchesAt(s, p, i);
      assert ReplaceFrom(s, p, v, i) == [s[i]] + ReplaceFrom(s, p, v, i + 1);
      ReplaceFromSkip(s, p, v, i + 1, m);
      assert s[i..m] == [s[i]] + s[i + 1..m];
      ConcatAssoc([s[i]], s[i + 1..m], ReplaceFrom(s, p, v, m));
    }
  }

  /** Replacement reads only the part of the string it has not reached yet. */
  lemma {:induction false} ReplaceFromSuffix(s: string, t: string, p: string, v: string, i: nat, j: nat)
    requires p != [] && i <= |s| && j <= |t| && s[i..] == t[j..]
    ensures ReplaceFrom(s, p, v, i) == ReplaceFrom(t, p, v, j)
    decreases |s| - i
  {
    if i < |s| {
      assert s[i] == s[i..][0] == t[j..][0] == t[j];
      if MatchesAt(s, p, i) {
        assert s[i..i + |p|] == s[i..][..|p|] == t[j..][..|p|] == t[j..j + |p|];
        ReplaceFromSuffix(s, t, p, v, i + |p|, j + |p|);
      } else {
        assert !MatchesAt(t, p, j) by {
          if j + |p| <= |t| {
            assert s[i..i + |p|] == s[i..][..|p|] == t[j..][..|p|] == t[j..j + |p|];
          }
        }
        assert s[i + 1..] == s[i..][1..] == t[j..][1..] == t[j + 1..];
        ReplaceFromSuffix(s, t, p, v, i + 1, j + 1);
      }
    }
  }

  /** Behind an inserted value the scan of the new text goes on as the scan of the old text behind the occurrence. */
  lemma ReplaceStep(b: string, p: string, v: string, index: nat, next: string)
    requires p != [] && index + |p| <= |b| && next == ReplaceRange(b, index, index + |p|, v)
    ensures next[..index + |v|] + ReplaceFrom(next, p, v, index + |v|) == (b[..index] + v) + ReplaceFrom(b, p, v, index + |p|)
  {
    ReplaceRangeParts(b, index, index + |p|, v);
    ReplaceFromSuffix(next, b, p, v, index + |v|, index + |p|);
  }

  /** Replacing from `from` copies up to the first occurrence, inserts `v` for it and goes on behind it. */
  lemma ReplaceFirstMatch(b: string, p: string, v: string, from: nat, index: nat)
    requires p != [] && from <= index && MatchesAt(b, p, index)
    requires forall j :: from <= j < index ==> !MatchesAt(b, p, j)
    ensures b[..from] + ReplaceFrom(b, p, v, from) == (b[..index] + v) + ReplaceFrom(b, p, v, index + |p|)
  {
    var rest := ReplaceFrom(b, p, v, index + |p|);
    ReplaceFromSkip(b, p, v, from, index);
    assert ReplaceFrom(b, p, v, index) == v + rest;
    ConcatAssoc(b[..from], b[from..index], v + rest);
    PrefixSplit(b, from, index);
    ConcatAssoc(b[..index], v, rest);
  }

  /** Concatenation regroups freely. */
  lemma ConcatAssoc(a: string, b: string, c: string)
    ensures a + (b + c) == (a + b) + c
  {
  }

  /** Two adjacent slices from the start make one. */
  lemma PrefixSplit(s: string, i: nat, j: nat)
    requires i <= j <= |s|
    ensures s[..i] + s[i..j] == s[..j]
  {
  }

  /**
   * What `StringBuilder.replace(start, end, v)` leaves: the text before `start`,
   * then `v`, then the text from `end` on; the length changes by `|v| - (end - start)`.
   */
  lemma ReplaceRangeParts(s: string, start: nat, end: nat, v: string)
    requires start <= end <= |s|
    ensures |ReplaceRange(s, start, end, v)| == |s| - (end - start) + |v|
    ensures ReplaceRange(s, start, end, v)[..start + |v|] == s[..start] + v
    ensures ReplaceRange(s, start, end, v)[start..start + |v|] == v
    ensures ReplaceRange(s, start, end, v)[start + |v|..] == s[end..]
  {
  }

  /** Once no occurrence is left at or after `from`, the rest is copied. */
  lemma ReplaceFromNoMatch(s: string, p: string, v: string, from: nat)
    requires p != [] && from <= |s|
    requires forall j :: from <= j ==> !MatchesAt(s, p, j)
    ensures ReplaceFrom(s, p, v, from) == s[from..]
  {
    ReplaceFromSkip(s, p, v, from, |s|);
  }

  /** Every placeholder starts with `$`, so it cannot start inside a value without `$`. */
  lemma NoMatchInValue(s: string, key: string, v: string, index: nat)
    requires '$' !in v && index + |v| <= |s| && s[index..index + |v|] == v
    ensures forall j :: index <= j < index + |v| ==> !MatchesAt(s, Placeholder(key), j)
  {
    assert Placeholder(key)[0] == '$';
    assert forall j :: index <= j < index + |v| ==> s[j] == v[j - index];
  }

  /** The search finds nothing in a stretch without occurrences. */
  lemma {:induction false} IndexOfSkip(s: string, p: string, a: nat, b: nat)
    requires p != [] && a <= b
    requires forall j :: a <= j < b ==> !MatchesAt(s, p, j)
    ensures IndexOf(s, p, a) == IndexOf(s, p, b)
    decreases b - a
  {
    if a < b && a + |p| <= |s| {
      IndexOfSkip(s, p, a + 1, b);
    }
  }

  /**
   * The state of the replacement loop over `before`: the output so far is
   * `result[..from]`, what is left to scan is `result[from..]`, and `index` is
   * the next occurrence of `p` in it.
   */
  ghost predicate Scanning(before: string, result: string, p: string, v: string, from: nat, index: int)
    requires p != []
  {
    && from <= |result|
    && index == IndexOf(result, p, from)
    && ReplaceAll(before, p, v) == result[..from] + ReplaceFrom(result, p, v, from)
  }

  /** Before the first pass nothing is output and the whole builder is left to scan. */
  lemma ScanningStart(builder: string, p: string, v: string)
    requires p != []
    ensures Scanning(builder, builder, p, v, 0, IndexOf(builder, p, 0))
  {
  }

  /** Once the search finds nothing more, the builder holds the replace-all of what it started from. */
  lemma ScanningDone(before: string, result: string, p: string, v: string, from: nat)
    requires p != [] && Scanning(before, result, p, v, from, -1)
    ensures result == ReplaceAll(before, p, v)
  {
    ReplaceFromNoMatch(result, p, v, from);
  }

  /**
   * One pass of the loop that resumes the search behind the inserted value
   * keeps the loop state and shortens what is left to scan.
   */
  lemma ResumingStep(before: string, result: string, next: string, p: string, v: string, from: nat, index: nat)
    requires p != [] && Scanning(before, result, p, v, from, index)
    requires index + |p| <= |result|
    requires next == ReplaceRange(result, index, index + |p|, v)
    ensures Scanning(before, next, p, v, index + |v|, IndexOf(next, p, index + |v|))
    ensures |next| - (index + |v|) < |result| - from
    ensures index + |v| <= |next| && next[index..index + |v|] == v
  {
    ReplaceFirstMatch(result, p, v, from, index);
    ReplaceStep(result, p, v, index, next);
    assert next[index..index + |v|] == v;
  }

  /**
   * Searching again from the start of an inserted value without `$` finds
   * what a search from behind it finds.
   */
  lemma SearchFromValueStart(next: string, key: string, v: string, index: nat)
    requires '$' !in v && index + |v| <= |next| && next[index..index + |v|] == v
    ensures IndexOf(next, Placeholder(key), index) == IndexOf(next, Placeholder(key), index + |v|)
  {
    NoMatchInValue(next, key, v, index);
    IndexOfSkip(next, Placeholder(key), index, index + |v|);
  }

  /**
   * One pass of the inner loop of `interpolate` as written: replace the
   * occurrence of `${key}` at `index` by the value, then search again from
   * `index`, the start of the inserted value.
   */
  method ReplaceOnce(ghost before: string, result: string, key: string, value: string, ghost from: nat, index: int)
    returns (next: string, nextIndex: int, ghost nextFrom: nat)
    requires '$' !in value && index != -1 && Scanning(before, result, Placeholder(key), value, from, index)
    ensures Scanning(before, next, Placeholder(key), value, nextFrom, nextIndex)
    ensures |next| - nextFrom < |result| - from
  {
    var exactKey := Placeholder(key);
    next := ReplaceRange(result, index, index + |exactKey|, value);
    ResumingStep(before, result, next, exactKey, value, from, index);
    SearchFromValueStart(next, key, value, index);
    nextIndex := IndexOf(next, exactKey, index);
    nextFrom := index + |value|;
  }

  /**
   * The inner loop of `interpolate` for one entry: replaces every `${key}` of
   * the builder by `value`. Since the search restarts at the start of the
   * inserted value, the loop ends only because the value holds no `$`.
   */
  method ReplacePlaceholder(builder: string, key: string, value: string) returns (result: string)
    requires '$' !in value
    ensures result == ReplaceAll(builder, Placeholder(key), value)
  {
    var exactKey := Placeholder(key);
    result := builder;
    ghost var from: nat := 0;
    var index := IndexOf(result, exactKey, 0);
    ScanningStart(builder, exactKey, value);
    while index != -1
      invariant Scanning(builder, result, exactKey, value, from, index)
      decreases |result| - from
    {
      result, index, from := ReplaceOnce(builder, result, key, value, from, index);
    }
    ScanningDone(builder, result, exactKey, value, from);
  }

  /** Taking one more entry runs one more replace-all pass, for that entry, on the text so far. */
  lemma SubstitutedStep(template: string, entries: seq<(string, string)>, e: nat)
    requires e < |entries|
    ensures Substituted(template, entries[..e + 1])
         == ReplaceAll(Substituted(template, entries[..e]), Placeholder(entries[e].0), entries[e].1)
  {
    assert entries[..e + 1][..e] == entries[..e];
  }

  /**
   * Replaces every `${key}` of the template by its value, entry after entry
   * in iteration order, on one builder. A null template and one that trims to
   * nothing are rejected; with no values the template is returned as it is.
   */
  method Interpolate(template: Option<string>, values: Option<seq<(string, string)>>) returns (r: Result<string>)
    requires values.Some? ==> forall e :: e in values.value ==> '$' !in e.1
    ensures r.Err? <==> template.None? || IsBlank(template.value)
    ensures r.Err? ==> r.error == IllegalArgument(TemplateMessage)
    ensures r.Ok? && (values.None? || values.value == []) ==> r.value == template.value
    ensures r.Ok? && values.Some? ==> r.value == Substituted(template.value, values.value)
  {
    if template.None? || IsBlank(template.value) {
      return Err(IllegalArgument(TemplateMessage));
    }
    if values.None? || values.value == [] {
      return Ok(template.value);
    }
    var entries := values.value;
    var builder := template.value;
    for e := 0 to |entries|
      invariant builder == Substituted(template.value, entries[..e])
    {
      assert entries[e] in entries;
      builder := ReplacePlaceholder(builder, entries[e].0, entries[e].1);
      SubstitutedStep(template.value, entries, e);
    }
    assert entries[..|entries|] == entries;
    return Ok(builder);
  }

  /**
   * Replacing a placeholder by itself leaves the builder and the next search
   * position as they were: the loop of `ReplacePlaceholder` without its
   * precondition would run forever.
   */
  lemma SelfPlaceholderStalls(s: string, key: string, index: nat)
    requires MatchesAt(s, Placeholder(key), index)
    ensures ReplaceRange(s, index, index + |Placeholder(key)|, Placeholder(key)) == s
    ensures IndexOf(s, Placeholder(key), index) == index
  {
    var p := Placeholder(key);
    assert s == s[..index] + s[index..index + |p|] + s[index + |p|..];
  }

  /**
   * A value that merely contains its own placeholder stalls the loop as well:
   * after `${key}` at `index` is replaced, `indexOf(exactKey, index)` finds the
   * copy inside the inserted value, so the search never comes back with -1
   * (and every pass makes the builder longer when the value is).
   */
  lemma ContainedPlaceholderPersists(s: string, key: string, v: string, index: nat, j: nat)
    requires MatchesAt(s, Placeholder(key), index) && MatchesAt(v, Placeholder(key), j)
    ensures IndexOf(ReplaceRange(s, index, index + |Placeholder(key)|, v), Placeholder(key), index) != -1
  {
    var p := Placeholder(key);
    var next := ReplaceRange(s, index, index + |p|, v);
    assert next[index..index + |v|] == v;
    assert next[index + j..index + j + |p|] == v[j..j + |p|];
    assert MatchesAt(next, p, index + j);
  }

  /**
   * Corrected inner loop: the search resumes behind the inserted value, so the
   * loop ends for every value.
   */
  method ReplacePlaceholderResumingAfterValue(builder: string, key: string, value: string) returns (result: string)
    ensures result == ReplaceAll(builder, Placeholder(key), value)
  {
    var exactKey := Placeholder(key);
    result := builder;
    var from: nat := 0;
    var index := IndexOf(result, exactKey, 0);
    ScanningStart(builder, exactKey, value);
    while index != -1
      invariant Scanning(builder, result, exactKey, value, from, index)
      decreases |result| - from
    {
      result, index, from := ReplaceOnceResumingAfterValue(builder, result, exactKey, value, from, index);
    }
    ScanningDone(builder, result, exactKey, value, from);
  }

  /** One pass of the corrected inner loop: the search resumes behind the inserted value. */
  method ReplaceOnceResumingAfterValue(ghost before: string, result: string, exactKey: string, value: string, from: nat, index: int)
    returns (next: string, nextIndex: int, nextFrom: nat)
    requires exactKey != [] && index != -1 && Scanning(before, result, exactKey, value, from, index)
    ensures Scanning(before, next, exactKey, value, nextFrom, nextIndex)
    ensures |next| - nextFrom < |result| - from
  {
    next := ReplaceRange(result, index, index + |exactKey|, value);
    ResumingStep(before, result, next, exactKey, value, from, index);
    nextFrom := index + |value|;
    nextIndex := IndexOf(next, exactKey, nextFrom);
  }

  /** Corrected `interpolate`: as `Interpolate`, for every value. */
  method InterpolateResumingAfterValue(template: Option<string>, values: Option<seq<(string, string)>>)
    returns (r: Result<string>)
    ensures r.Err? <==> template.None? || IsBlank(template.value)
    ensures r.Err? ==> r.error == IllegalArgument(TemplateMessage)
    ensures r.Ok? && (values.None? || values.value == []) ==> r.value == template.value
    ensures r.Ok? && values.Some? ==> r.value == Substituted(template.value, values.value)
  {
    if template.None? || IsBlank(template.value) {
      return Err(IllegalArgument(TemplateMessage));
    }
    if values.None? || values.value == [] {
      return Ok(template.value);
    }
    var entries := values.value;
    var builder := template.value;
    for e := 0 to |entries|
      invariant builder == Substituted(template.value, entries[..e])
    {
      builder := ReplacePlaceholderResumingAfterValue(builder, entries[e].0, entries[e].1);
      SubstitutedStep(template.value, entries, e);
    }
    assert entries[..|entries|] == entries;
    return Ok(builder);
  }

  /** An occurrence of a placeholder is an occurrence of `${`. */
  lemma PlaceholderHasMarker(s: string, key: string, j: int)
    ensures MatchesAt(s, Placeholder(key), j) ==> MatchesAt(s, "${", j)
  {
    if MatchesAt(s, Placeholder(key), j) {
      assert s[j..j + 2] == s[j..j + |Placeholder(key)|][..2];
    }
  }

  /** A template without `${` is left unchanged by every entry. */
  lemma {:induction false} SubstitutedWithoutMarker(template: string, entries: seq<(string, string)>)
    requires forall j :: !MatchesAt(template, "${", j)
    ensures Substituted(template, entries) == template
  {
    if entries != [] {
      var (key, value) := entries[|entries| - 1];
      SubstitutedWithoutMarker(template, entries[..|entries| - 1]);
      forall j ensures !MatchesAt(template, Placeholder(key), j) {
        PlaceholderHasMarker(template, key, j);
      }
      ReplaceFromNoMatch(template, Placeholder(key), value, 0);
    }
  }

  /** One replace-all pass of a placeholder by itself changes nothing. */
  lemma {:induction false} ReplaceByItself(s: string, p: string, i: nat)
    requires p != [] && i <= |s|
    ensures ReplaceFrom(s, p, p, i) == s[i..]
    decreases |s| - i
  {
    if i < |s| {
      if MatchesAt(s, p, i) {
        ReplaceByItself(s, p, i + |p|);
        assert s[i..] == s[i..i + |p|] + s[i + |p|..];
      } else {
        ReplaceByItself(s, p, i + 1);
        assert s[i..] == [s[i]] + s[i + 1..];
      }
    }
  }
}
