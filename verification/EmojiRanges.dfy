/**
 emoji_ranges.py, which merges code point ranges into a table, and the search over such a
 table in DisplayableText.swift.
 */
module EmojiRanges {

  /** Both ends are inclusive. */
  datatype Range = Range(start: nat, end: nat)

  ghost predicate Covered(v: nat, ranges: seq<Range>) {
    exists i :: 0 <= i < |ranges| && ranges[i].start <= v <= ranges[i].end
  }

  /** All ranges have their ends in order. */
  predicate Forward(ranges: seq<Range>) {
    forall i :: 0 <= i < |ranges| ==> ranges[i].start <= ranges[i].end
  }

  ghost predicate SameCover(a: seq<Range>, b: seq<Range>) {
    forall v: nat :: Covered(v, a) <==> Covered(v, b)
  }

  /** Ascending ranges with a gap between neighbours. */
  predicate IsTable(ranges: seq<Range>) {
    && Forward(ranges)
    && (forall i :: 0 <= i < |ranges| - 1 ==> ranges[i].end + 1 < ranges[i + 1].start)
  }

  const BIG_RANGES: seq<Range> := [
    Range(0x1F600, 0x1F64F), Range(0x1F300, 0x1F5FF), Range(0x1F680, 0x1F6FF), Range(0x2600, 0x26FF),
    Range(0x2700, 0x27BF), Range(0xFE00, 0xFE0F), Range(0x1F900, 0x1F9FF), Range(65024, 65039), Range(8400, 8447)]

  // ---------------------------------------------------------------- the script

  predicate Sorted(ranges: seq<Range>) {
    forall i, j :: 0 <= i < j < |ranges| ==> ranges[i].start <= ranges[j].start
  }

  function Insert(r: Range, ranges: seq<Range>): (s: seq<Range>)
    ensures multiset(s) == multiset{r} + multiset(ranges)
    ensures forall x :: x in s ==> x == r || x in ranges
  {
    if ranges == [] || r.start <= ranges[0].start then [r] + ranges
    else
      assert ranges == [ranges[0]] + ranges[1..];
      [ranges[0]] + Insert(r, ranges[1..])
  }

  lemma {:induction false} InsertSorted(r: Range, ranges: seq<Range>)
    requires Sorted(ranges)
    ensures Sorted(Insert(r, ranges))
    decreases |ranges|
  {
    if ranges != [] && r.start > ranges[0].start {
      InsertSorted(r, ranges[1..]);
      var s, rest := Insert(r, ranges), Insert(r, ranges[1..]);
      forall j | 0 < j < |s|
        ensures s[0].start <= s[j].start && s[j] == rest[j - 1]
      {
        assert rest[j - 1] in rest;
      }
    }
  }

  /** list.sort by the start of a range, which keeps the order of equal starts. */
  function SortByStart(ranges: seq<Range>): (s: seq<Range>)
    ensures multiset(s) == multiset(ranges)
  {
    if ranges == [] then []
    else
      assert ranges == [ranges[0]] + ranges[1..];
      Insert(ranges[0], SortByStart(ranges[1..]))
  }

  lemma {:induction false} SortByStartSorted(ranges: seq<Range>)
    ensures Sorted(SortByStart(ranges))
    decreases |ranges|
  {
    if ranges != [] {
      SortByStartSorted(ranges[1..]);
      InsertSorted(ranges[0], SortByStart(ranges[1..]));
    }
  }

  lemma SameElementsCover(a: seq<Range>, b: seq<Range>, v: nat)
    requires multiset(a) == multiset(b) && Covered(v, a)
    ensures Covered(v, b)
  {
    var i :| 0 <= i < |a| && a[i].start <= v <= a[i].end;
    assert a[i] in multiset(b);
  }

  /** One round of the merge loop. */
  function MergeOne(merged: seq<Range>, r: Range): seq<Range> {
    if merged != [] && merged[|merged| - 1].start <= r.start <= merged[|merged| - 1].end + 1 then
      var last := merged[|merged| - 1];
      merged[..|merged| - 1] + [Range(last.start, if r.end >= last.end then r.end else last.end)]
    else merged + [r]
  }

  lemma MergeOneCovers(merged: seq<Range>, r: Range, v: nat)
    ensures Covered(v, MergeOne(merged, r)) <==> Covered(v, merged) || r.start <= v <= r.end
  {
    var next, n := MergeOne(merged, r), |merged|;
    if |next| == n {
      assert forall i :: 0 <= i < n - 1 ==> next[i] == merged[i];
      if next[n - 1].start <= v <= next[n - 1].end {
        assert merged[n - 1].start <= v <= merged[n - 1].end || r.start <= v <= r.end;
      }
      if r.start <= v <= r.end || merged[n - 1].start <= v <= merged[n - 1].end {
        assert next[n - 1].start <= v <= next[n - 1].end;
      }
      if Covered(v, merged) {
        var i :| 0 <= i < n && merged[i].start <= v <= merged[i].end;
        assert next[i].start <= v <= next[i].end;
      }
    } else {
      assert next[n] == r && forall i :: 0 <= i < n ==> next[i] == merged[i];
    }
  }

  lemma MergeStep(merged: seq<Range>, raw: seq<Range>, n: nat)
    requires n < |raw| && Sorted(raw) && SameCover(merged, raw[..n])
    requires merged != [] ==> n > 0 && merged[|merged| - 1].start <= raw[n - 1].start
    requires Forward(raw[..n]) ==> IsTable(merged)
    ensures var next := MergeOne(merged, raw[n]);
            && SameCover(next, raw[..n + 1])
            && next[|next| - 1].start <= raw[n].start
            && (Forward(raw[..n + 1]) ==> IsTable(next))
  {
    var next := MergeOne(merged, raw[n]);
    forall v: nat
      ensures Covered(v, next) <==> Covered(v, raw[..n + 1])
    {
      MergeOneCovers(merged, raw[n], v);
      CoveredNext(v, raw, n);
    }
    if Forward(raw[..n + 1]) {
      assert raw[..n + 1][n] == raw[n] && forall i :: 0 <= i < n ==> raw[..n][i] == raw[..n + 1][i];
      MergeOneTable(merged, raw[n]);
    }
  }

  lemma MergeOneTable(merged: seq<Range>, r: Range)
    requires IsTable(merged) && r.start <= r.end
    requires merged != [] ==> merged[|merged| - 1].start <= r.start
    ensures IsTable(MergeOne(merged, r))
  {}

  /** The merge loop. */
  method MergeSorted(raw: seq<Range>) returns (merged: seq<Range>)
    requires Sorted(raw)
    ensures SameCover(merged, raw) && (Forward(raw) ==> IsTable(merged))
  {
    merged := [];
    var n := 0;
    while n < |raw|
      invariant 0 <= n <= |raw|
      invariant SameCover(merged, raw[..n])
      invariant merged != [] ==> n > 0 && merged[|merged| - 1].start <= raw[n - 1].start
      invariant Forward(raw[..n]) ==> IsTable(merged)
    {
      MergeStep(merged, raw, n);
      var r := raw[n];
      n := n + 1;
      if |merged| > 0 {
        var last := merged[|merged| - 1];
        if last.start <= r.start <= last.end + 1 {
          merged := merged[..|merged| - 1];
          merged := merged + [Range(last.start, if r.end >= last.end then r.end else last.end)];
          continue;
        }
      }
      merged := merged + [r];
    }
    assert raw[..n] == raw;
  }

  /** The sort and the merge loop. */
  method MergeRanges(ranges: seq<Range>) returns (merged: seq<Range>)
    ensures SameCover(merged, ranges) && (Forward(ranges) ==> IsTable(merged))
  {
    var raw := SortByStart(ranges);
    SortByStartSorted(ranges);
    SameElements(raw, ranges);
    merged := MergeSorted(raw);
  }

  /** The script, from the ranges it parsed to the table it prints. */
  method NewRanges(parsed: seq<Range>) returns (merged: seq<Range>)
    ensures SameCover(merged, parsed + BIG_RANGES)
    ensures Forward(parsed) ==> IsTable(merged)
  {
    merged := MergeRanges(parsed + BIG_RANGES);
  }

  lemma CoveredNext(v: nat, raw: seq<Range>, n: nat)
    requires n < |raw|
    ensures Covered(v, raw[..n + 1]) <==> Covered(v, raw[..n]) || raw[n].start <= v <= raw[n].end
  {
    var a, b := raw[..n], raw[..n + 1];
    assert b[n] == raw[n] && forall i :: 0 <= i < n ==> a[i] == b[i];
  }

  lemma SameElements(a: seq<Range>, b: seq<Range>)
    requires multiset(a) == multiset(b)
    ensures SameCover(a, b) && (Forward(b) ==> Forward(a))
  {
    forall v: nat
      ensures Covered(v, a) <==> Covered(v, b)
    {
      if Covered(v, a) {
        SameElementsCover(a, b, v);
      }
      if Covered(v, b) {
        SameElementsCover(b, a, v);
      }
    }
    forall i | 0 <= i < |a| && Forward(b)
      ensures a[i].start <= a[i].end
    {
      assert a[i] in multiset(b);
    }
  }

  // ---------------------------------------------------------------- tables are canonical

  lemma {:induction false} TableAscends(t: seq<Range>, i: nat, j: nat)
    requires IsTable(t) && i < j < |t|
    ensures t[i].end + 1 < t[j].start
  {
    if i < j - 1 {
      TableAscends(t, i, j - 1);
    }
  }

  lemma NotCoveredAfter(t: seq<Range>, i: nat)
    requires IsTable(t) && i < |t|
    ensures !Covered(t[i].end + 1, t)
  {
    if Covered(t[i].end + 1, t) {
      var j :| 0 <= j < |t| && t[j].start <= t[i].end + 1 <= t[j].end;
      if j < i {
        TableAscends(t, j, i);
      } else if i < j {
        TableAscends(t, i, j);
      }
    }
  }

  lemma FirstCovered(t: seq<Range>, v: nat)
    requires IsTable(t) && Covered(v, t)
    ensures t != [] && t[0].start <= v
  {
    var j :| 0 <= j < |t| && t[j].start <= v <= t[j].end;
    if j > 0 {
      TableAscends(t, 0, j);
    }
  }

  /** A table that covers all that another one covers does not end its first range sooner. */
  lemma FirstRangeWithin(a: seq<Range>, b: seq<Range>)
    requires IsTable(a) && IsTable(b) && a != [] && SameCover(a, b)
    ensures b != [] && a[0].start >= b[0].start && a[0].end <= b[0].end
  {
    assert Covered(a[0].start, a);
    FirstCovered(b, a[0].start);
    assert Covered(b[0].start, b);
    FirstCovered(a, b[0].start);
    if a[0].end > b[0].end {
      assert Covered(b[0].end + 1, a) by {
        assert a[0].start <= b[0].end + 1 <= a[0].end;
      }
      NotCoveredAfter(b, 0);
    }
  }

  lemma RestCovers(t: seq<Range>, v: nat)
    requires IsTable(t) && t != []
    ensures Covered(v, t[1..]) <==> Covered(v, t) && v > t[0].end
  {
    if Covered(v, t[1..]) {
      var i :| 0 <= i < |t[1..]| && t[1..][i].start <= v <= t[1..][i].end;
      assert t[i + 1] == t[1..][i];
      TableAscends(t, 0, i + 1);
    }
    if Covered(v, t) && v > t[0].end {
      var i :| 0 <= i < |t| && t[i].start <= v <= t[i].end;
      assert t[1..][i - 1] == t[i];
    }
  }

  /**
   A set of code points has one table. So what the script prints depends only on the union of
   its input ranges, not on their order, their overlaps or how the sort breaks ties.
   */
  lemma {:induction false} TablesAreCanonical(a: seq<Range>, b: seq<Range>)
    requires IsTable(a) && IsTable(b) && SameCover(a, b)
    ensures a == b
    decreases |a|
  {
    if a == [] {
      if b != [] {
        FirstRangeWithin(b, a);
      }
    } else {
      FirstRangeWithin(a, b);
      FirstRangeWithin(b, a);
      forall v: nat
        ensures Covered(v, a[1..]) <==> Covered(v, b[1..])
      {
        RestCovers(a, v);
        RestCovers(b, v);
      }
      TablesAreCanonical(a[1..], b[1..]);
      assert a == [a[0]] + a[1..] && b == [b[0]] + b[1..];
    }
  }

  // ---------------------------------------------------------------- the search

  /** isEmoji, over a table that is not empty. */
  method IsEmoji(value: nat, table: seq<Range>) returns (found: bool)
    requires IsTable(table) && table != []
    ensures found <==> Covered(value, table)
  {
    var left, right := 0, |table| - 1;
    while true
      invariant 0 <= left <= right < |table|
      invariant forall i :: 0 <= i < |table| && table[i].start <= value <= table[i].end ==> left <= i <= right
      decreases right - left
    {
      var mid := (left + right) / 2;
      var midRange := table[mid];
      forall i | 0 <= i < |table|
        ensures i < mid ==> table[i].end < midRange.start
        ensures i > mid ==> midRange.end < table[i].start
      {
        if i < mid {
          TableAscends(table, i, mid);
        } else if i > mid {
          TableAscends(table, mid, i);
        }
      }
      if value < midRange.start {
        if mid == left {
          return false;
        }
        right := mid - 1;
      } else if value > midRange.end {
        if mid == right {
          return false;
        }
        left := mid + 1;
      } else {
        return true;
      }
    }
  }

  /** The predefined ranges overlap and repeat each other; this is what they come to. */
  lemma BigRangesCover(v: nat)
    ensures Covered(v, BIG_RANGES) <==>
            || 0x20D0 <= v <= 0x20FF || 0x2600 <= v <= 0x27BF || 0xFE00 <= v <= 0xFE0F
            || 0x1F300 <= v <= 0x1F64F || 0x1F680 <= v <= 0x1F6FF || 0x1F900 <= v <= 0x1F9FF
  {
    var r := BIG_RANGES;
    assert r[0].start <= v <= r[0].end || r[1].start <= v <= r[1].end || r[2].start <= v <= r[2].end ||
           r[3].start <= v <= r[3].end || r[4].start <= v <= r[4].end || r[5].start <= v <= r[5].end ||
           r[6].start <= v <= r[6].end || r[7].start <= v <= r[7].end || r[8].start <= v <= r[8].end <==>
           Covered(v, BIG_RANGES);
  }

  /** From the ranges the script parses to the answers of the search over its output. */
  method SearchGenerated(parsed: seq<Range>, value: nat) returns (found: bool)
    requires Forward(parsed)
    ensures found <==> Covered(value, parsed + BIG_RANGES)
  {
    var table := NewRanges(parsed);
    assert Covered(8400, parsed + BIG_RANGES) by {
      assert (parsed + BIG_RANGES)[|parsed| + 8] == Range(8400, 8447);
    }
    found := IsEmoji(value, table);
  }

  const ZERO_WIDTH_JOINER := 8205

  /** containsEmoji, on the scalars of a string. */
  method ContainsEmoji(scalars: seq<nat>, table: seq<Range>) returns (r: bool)
    requires IsTable(table) && table != []
    ensures r <==> exists i :: 0 <= i < |scalars| && Covered(scalars[i], table)
  {
    for i := 0 to |scalars|
      invariant forall j :: 0 <= j < i ==> !Covered(scalars[j], table)
    {
      var emoji := IsEmoji(scalars[i], table);
      if emoji {
        return true;
      }
    }
    return false;
  }

  /** containsOnlyEmoji. */
  method ContainsOnlyEmoji(scalars: seq<nat>, table: seq<Range>) returns (r: bool)
    requires IsTable(table) && table != []
    ensures r <==> scalars != [] &&
                   forall i :: 0 <= i < |scalars| ==> Covered(scalars[i], table) || scalars[i] == 0x200D
  {
    if scalars == [] {
      return false;
    }
    for i := 0 to |scalars|
      invariant forall j :: 0 <= j < i ==> Covered(scalars[j], table) || scalars[j] == ZERO_WIDTH_JOINER
    {
      var emoji := IsEmoji(scalars[i], table);
      if !emoji && scalars[i] != ZERO_WIDTH_JOINER {
        return false;
      }
    }
    return true;
  }
}
