/**
  The Python string operations the column-label cleaners apply to each label:
  `str.strip(chars)`, `str.replace(pattern, replacement, count)` and slicing `s[start:stop]`.
*/
module PyStr {
  import opened Wrappers

  /** Length of the run of characters from `chars` at the start of `s`. */
  function LeadingRun(s: string, chars: string): (n: nat)
    ensures n <= |s|
    ensures forall k :: 0 <= k < n ==> s[k] in chars
    ensures n < |s| ==> s[n] !in chars
  {
    if s != [] && s[0] in chars then 1 + LeadingRun(s[1..], chars) else 0
  }

  /** Length of the run of characters from `chars` at the end of `s`. */
  function TrailingRun(s: string, chars: string): (n: nat)
    ensures n <= |s|
    ensures forall k :: |s| - n <= k < |s| ==> s[k] in chars
    ensures n < |s| ==> s[|s| - 1 - n] !in chars
  {
    if s != [] && s[|s| - 1] in chars then 1 + TrailingRun(s[..|s| - 1], chars) else 0
  }

  /** `s` with its leading run of `chars` removed and its trailing run of `chars` removed. */
  ghost predicate IsStripped(s: string, chars: string, r: string)
  {
    && (r == [] || (r[0] !in chars && r[|r| - 1] !in chars))
    && exists i :: StrippedAt(s, chars, r, i)
  }

  /** `r` is the part of `s` from position `i` on, and everything of `s` outside it is in `chars`. */
  ghost predicate StrippedAt(s: string, chars: string, r: string, i: int)
  {
    && 0 <= i <= |s| - |r|
    && s[i..i + |r|] == r
    && (forall k :: 0 <= k < i ==> s[k] in chars)
    && (forall k :: i + |r| <= k < |s| ==> s[k] in chars)
  }

  /** `s.strip(chars)`: every character of `chars` is removed from both ends. */
  function Strip(s: string, chars: string): (r: string)
    ensures IsStripped(s, chars, r)
  {
    var i := LeadingRun(s, chars);
    var j := |s| - TrailingRun(s[i..], chars);
    StripWitness(s, chars, i, j);
    s[i..j]
  }

  lemma StripWitness(s: string, chars: string, i: nat, j: int)
    requires i == LeadingRun(s, chars)
    requires j == |s| - TrailingRun(s[i..], chars)
    ensures i <= j <= |s|
    ensures IsStripped(s, chars, s[i..j])
  {
    var t := s[i..];
    var m := TrailingRun(t, chars);
    var r := s[i..j];
    assert r == t[..|t| - m];
    forall k | j <= k < |s|
      ensures s[k] in chars
    {
      assert s[k] == t[k - i];
    }
    if r != [] {
      assert r[0] == s[i];
      assert r[|r| - 1] == t[|t| - 1 - m];
    }
    assert StrippedAt(s, chars, r, i);
  }

  /** `IsStripped` determines the stripped string: `Strip` is the only function meeting its contract. */
  lemma IsStrippedUnique(s: string, chars: string, r1: string, r2: string)
    requires IsStripped(s, chars, r1) && IsStripped(s, chars, r2)
    ensures r1 == r2
  {
  }

  /** Python's `count` argument after one replacement: a negative count means "no limit". */
  function Decrement(count: int): int
  {
    if count > 0 then count - 1 else count
  }

  /** `pattern` occurs in `s` starting at some position. */
  ghost predicate Occurs(s: string, pattern: string)
  {
    exists i :: OccursAt(s, pattern, i)
  }

  ghost predicate OccursAt(s: string, pattern: string, i: int)
  {
    0 <= i <= |s| - |pattern| && s[i..i + |pattern|] == pattern
  }

  /**
    `s.replace(old, new, count)` with `pattern` for `old` and `replacement` for `new`:
    non-overlapping occurrences of `pattern`, from the left, are
    replaced by `replacement`, at most `count` of them unless `count` is negative. An empty `pattern`
    matches before every character and at the end.
  */
  function Replace(s: string, pattern: string, replacement: string, count: int): (r: string)
    ensures count == 0 ==> r == s
    ensures pattern != [] && !Occurs(s, pattern) ==> r == s
    decreases |s|, if pattern == [] then 1 else 0
  {
    if count == 0 then s
    else if pattern == [] then
      if s == [] then replacement else replacement + [s[0]] + Replace(s[1..], pattern, replacement, Decrement(count))
    else if |s| < |pattern| then s
    else if s[..|pattern|] == pattern then
      assert OccursAt(s, pattern, 0);
      replacement + Replace(s[|pattern|..], pattern, replacement, Decrement(count))
    else
      assert !Occurs(s, pattern) ==> !Occurs(s[1..], pattern) by {
        if Occurs(s[1..], pattern) {
          var i :| OccursAt(s[1..], pattern, i);
          assert s[1..][i..i + |pattern|] == s[i + 1..i + 1 + |pattern|];
          assert OccursAt(s, pattern, i + 1);
        }
      }
      [s[0]] + Replace(s[1..], pattern, replacement, count)
  }

  /**
    Replacement starts at the leftmost occurrence: when `pattern` first occurs at `i`, the text
    before it is kept, the occurrence becomes `replacement`, and replacing resumes after the
    occurrence (so occurrences never overlap) with one fewer replacement allowed.
  */
  lemma {:induction false} ReplaceLeftmost(s: string, pattern: string, replacement: string, count: int, i: nat)
    requires pattern != [] && count != 0
    requires OccursAt(s, pattern, i)
    requires forall j :: 0 <= j < i ==> !OccursAt(s, pattern, j)
    ensures Replace(s, pattern, replacement, count)
      == s[..i] + replacement + Replace(s[i + |pattern|..], pattern, replacement, Decrement(count))
    decreases i, 1
  {
    if i == 0 {
      assert s[..|pattern|] == pattern;
      ReplaceAtStart(s, pattern, replacement, count);
      assert s[..i] == [];
    } else {
      ReplaceLeftmostLater(s, pattern, replacement, count, i);
    }
  }

  /** `ReplaceLeftmost` when the first occurrence is not at the start: `Replace` skips `s[0]`. */
  lemma {:induction false} ReplaceLeftmostLater(s: string, pattern: string, replacement: string, count: int, i: nat)
    requires pattern != [] && count != 0 && 0 < i
    requires OccursAt(s, pattern, i)
    requires forall j :: 0 <= j < i ==> !OccursAt(s, pattern, j)
    ensures Replace(s, pattern, replacement, count)
      == s[..i] + replacement + Replace(s[i + |pattern|..], pattern, replacement, Decrement(count))
    decreases i, 0
  {
    var t, k: nat := s[1..], i - 1;
    var rest := Replace(s[i + |pattern|..], pattern, replacement, Decrement(count));
    ShiftOccurrence(s, pattern, i);
    ReplaceLeftmost(t, pattern, replacement, count, k);
    SuffixOfTail(s, i, |pattern|);
    ReplaceEqual(t[k + |pattern|..], s[i + |pattern|..], pattern, replacement, Decrement(count));
    ReplaceSkip(s, pattern, replacement, count);
    Regroup(s, i, replacement, rest, Replace(t[k + |pattern|..], pattern, replacement, Decrement(count)),
      Replace(t, pattern, replacement, count), Replace(s, pattern, replacement, count));
  }

  /** An occurrence at the very start is replaced first. */
  lemma ReplaceAtStart(s: string, pattern: string, replacement: string, count: int)
    requires pattern != [] && count != 0
    requires |pattern| <= |s| && s[..|pattern|] == pattern
    ensures Replace(s, pattern, replacement, count)
      == replacement + Replace(s[|pattern|..], pattern, replacement, Decrement(count))
  {
  }

  /** The sequence arithmetic of `ReplaceLeftmost`'s inductive step. */
  lemma Regroup(s: string, i: nat, replacement: string, rest: string, tailRest: string, tail: string, whole: string)
    requires 0 < i <= |s|
    requires whole == [s[0]] + tail
    requires tail == s[1..][..i - 1] + replacement + tailRest
    requires tailRest == rest
    ensures whole == s[..i] + replacement + rest
  {
    assert [s[0]] + s[1..][..i - 1] == s[..i];
  }

  /** Equal strings have equal replacements. */
  lemma ReplaceEqual(a: string, b: string, pattern: string, replacement: string, count: int)
    requires a == b
    ensures Replace(a, pattern, replacement, count) == Replace(b, pattern, replacement, count)
  {
  }

  /** Dropping `i - 1 + m` characters from `s[1..]` leaves `s[i + m..]`. */
  lemma SuffixOfTail(s: string, i: nat, m: nat)
    requires 0 < i && i + m <= |s|
    ensures s[1..][i - 1 + m..] == s[i + m..]
  {
  }

  /** Without an occurrence at the start, `Replace` keeps the first character and moves on. */
  lemma ReplaceSkip(s: string, pattern: string, replacement: string, count: int)
    requires pattern != [] && count != 0
    requires |pattern| <= |s| && !OccursAt(s, pattern, 0)
    ensures Replace(s, pattern, replacement, count) == [s[0]] + Replace(s[1..], pattern, replacement, count)
  {
    assert s[..|pattern|] != pattern;
  }

  /** The first occurrence at `i > 0` in `s` is the first occurrence at `i - 1` in `s[1..]`. */
  lemma ShiftOccurrence(s: string, pattern: string, i: nat)
    requires 0 < i && OccursAt(s, pattern, i)
    requires forall j :: 0 <= j < i ==> !OccursAt(s, pattern, j)
    ensures |pattern| <= |s| && !OccursAt(s, pattern, 0)
    ensures OccursAt(s[1..], pattern, i - 1)
    ensures forall j :: 0 <= j < i - 1 ==> !OccursAt(s[1..], pattern, j)
  {
    var t := s[1..];
    assert !OccursAt(s, pattern, 0);
    assert t[i - 1..i - 1 + |pattern|] == s[i..i + |pattern|];
    forall j | 0 <= j < i - 1
      ensures !OccursAt(t, pattern, j)
    {
      assert !OccursAt(s, pattern, j + 1);
      assert t[j..j + |pattern|] == s[j + 1..j + 1 + |pattern|];
    }
  }

  /**
    In `r`, the copy of `replacement` inserted before `s[k]` starts at `k * (|replacement| + 1)`
    and is followed by `s[k]` itself.
  */
  ghost predicate InsertedBefore(r: string, s: string, replacement: string, k: int)
  {
    && 0 <= k < |s|
    && var m := k * (|replacement| + 1);
    && 0 <= m && m + |replacement| < |r|
    && r[m..m + |replacement|] == replacement
    && r[m + |replacement|] == s[k]
  }

  /**
    With an empty pattern and no limit, `replacement` is inserted before every character and at
    the end: `|s| + 1` insertions, each character of `s` following its own copy.
  */
  lemma {:induction false} ReplaceEmptyPattern(s: string, replacement: string, count: int)
    requires count < 0
    ensures |Replace(s, [], replacement, count)| == |s| + (|s| + 1) * |replacement|
    ensures forall k :: 0 <= k < |s| ==> InsertedBefore(Replace(s, [], replacement, count), s, replacement, k)
    ensures Replace(s, [], replacement, count)[|s| * (|replacement| + 1)..] == replacement
  {
    var r := Replace(s, [], replacement, count);
    if s != [] {
      var rest := Replace(s[1..], [], replacement, count);
      var head := replacement + [s[0]];
      ReplaceEmptyPattern(s[1..], replacement, count);
      assert r == head + rest;
      InsertedAll(head, rest, s, replacement);
      TailShift(head, rest, |s|, replacement);
    } else {
      assert r == replacement;
    }
  }

  /** Every copy found in `rest`, plus the first character's own segment `head`, gives every copy in the whole. */
  lemma InsertedAll(head: string, rest: string, s: string, replacement: string)
    requires |s| > 0 && head == replacement + [s[0]]
    requires forall k :: 0 <= k < |s| - 1 ==> InsertedBefore(rest, s[1..], replacement, k)
    ensures forall k :: 0 <= k < |s| ==> InsertedBefore(head + rest, s, replacement, k)
  {
    forall k | 0 <= k < |s|
      ensures InsertedBefore(head + rest, s, replacement, k)
    {
      if k == 0 {
        assert (head + rest)[0..|replacement|] == replacement;
      } else {
        InsertedShift(head, rest, s, replacement, k);
      }
    }
  }

  /** A copy found at position `k - 1` after the first character's segment is at `k` in the whole. */
  lemma InsertedShift(head: string, rest: string, s: string, replacement: string, k: int)
    requires |s| > 0 && head == replacement + [s[0]] && 0 < k < |s|
    requires InsertedBefore(rest, s[1..], replacement, k - 1)
    ensures InsertedBefore(head + rest, s, replacement, k)
  {
    var n := |replacement| + 1;
    var m := (k - 1) * n;
    assert k * n == m + n;
    assert (head + rest)[m + n..m + n + |replacement|] == rest[m..m + |replacement|];
    assert (head + rest)[m + n + |replacement|] == rest[m + |replacement|];
  }

  /** The final copy of `rest`, found after the first character's segment, ends the whole. */
  lemma TailShift(head: string, rest: string, len: int, replacement: string)
    requires 0 < len && |head| == |replacement| + 1
    requires (len - 1) * (|replacement| + 1) <= |rest|
    requires rest[(len - 1) * (|replacement| + 1)..] == replacement
    ensures len * (|replacement| + 1) <= |head + rest|
    ensures (head + rest)[len * (|replacement| + 1)..] == replacement
  {
    var n := |replacement| + 1;
    var m := (len - 1) * n;
    assert len * n == m + n;
    assert (head + rest)[m + n..] == rest[m..];
  }

  /** Replacing a string by itself changes nothing. */
  lemma {:induction false} ReplaceBySelf(s: string, pattern: string, count: int)
    ensures Replace(s, pattern, pattern, count) == s
    decreases |s|
  {
    if count == 0 {
    } else if pattern == [] {
      if s != [] {
        ReplaceBySelf(s[1..], pattern, Decrement(count));
      }
    } else if |s| < |pattern| {
    } else if s[..|pattern|] == pattern {
      ReplaceBySelf(s[|pattern|..], pattern, Decrement(count));
      assert s == s[..|pattern|] + s[|pattern|..];
    } else {
      ReplaceBySelf(s[1..], pattern, count);
    }
  }

  /** A Python slice index: a negative index counts from the end, and the result is clamped to the string. */
  function SliceIndex(i: int, n: nat): (k: nat)
    ensures k <= n
    ensures 0 <= i <= n ==> k == i
    ensures i < 0 && 0 <= i + n ==> k == i + n
    ensures i + n < 0 ==> k == 0
    ensures n < i ==> k == n
  {
    if i < 0 then (if i + n < 0 then 0 else i + n) else if i > n then n else i
  }

  /** `s[start:stop]`; `stop == None` is an open end. */
  function Slice(s: string, start: int, stop: Option<int>): (r: string)
    ensures |r| <= |s|
    ensures 0 <= start && stop.Some? && start <= stop.value <= |s| ==> r == s[start..stop.value]
    ensures SliceIndex(start, |s|) + |r| <= |s|
    ensures r == s[SliceIndex(start, |s|)..SliceIndex(start, |s|) + |r|]
    ensures var i := SliceIndex(start, |s|);
      var j := if stop.Some? then SliceIndex(stop.value, |s|) else |s|;
      |r| == if i < j then j - i else 0
  {
    var i := SliceIndex(start, |s|);
    var j := if stop.Some? then SliceIndex(stop.value, |s|) else |s|;
    if i < j then s[i..j] else []
  }

  /** Python's slicing identity `s[:k] + s[k:] == s`, for every integer `k`, negative ones included. */
  lemma SliceSplit(s: string, k: int)
    ensures Slice(s, 0, Some(k)) + Slice(s, k, None) == s
  {
  }

  /** 'xyz'.strip('z') == 'xy', and 'abc'.strip('z') leaves 'abc' alone. */
  lemma StripExamples()
    ensures Strip("abc", "z") == "abc"
    ensures Strip("xyz", "z") == "xy"
  {
    assert LeadingRun("abc", "z") == 0;
    assert TrailingRun("abc", "z") == 0;
    assert LeadingRun("xyz", "z") == 0;
    assert TrailingRun("xy", "z") == 0;
    assert TrailingRun("xyz", "z") == 1;
  }
}
