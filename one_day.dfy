/**
 * Ordering of one day's eCallisto recordings (one_day.py): the station filter
 * applied to the archive listing, and `circular_sort`, which orders recording
 * names by the HHMMSS stamp in their name and rotates the order so that the
 * day starts at a given UTC offset.
 */
module OneDay {
  import opened Wrappers
  import opened Seqs

  // ---------------------------------------------------------------------------
  // Decimal parsing: Python's int() on ASCII digit strings
  // ---------------------------------------------------------------------------

  predicate IsDigit(c: char) {
    '0' <= c <= '9'
  }

  function DigitValue(c: char): (d: nat)
    requires IsDigit(c)
    ensures d <= 9
  {
    (c as int) - ('0' as int)
  }

  predicate AllDigits(s: string) {
    forall i :: 0 <= i < |s| ==> IsDigit(s[i])
  }

  /** `int(s)` on ASCII digits: None (Python raises ValueError) for an empty string or a non-digit. */
  function ParseDecimal(s: string): (r: Option<nat>)
    ensures r.Some? <==> |s| > 0 && AllDigits(s)
  {
    if |s| == 0 || !IsDigit(s[|s| - 1]) then None
    else if |s| == 1 then Some(DigitValue(s[0]))
    else
      match ParseDecimal(s[..|s| - 1])
      case None => None
      case Some(v) => Some(10 * v + DigitValue(s[|s| - 1]))
  }

  /** Python's `s[i:j]` for 0 <= i <= j: both bounds are clamped to the length. */
  function Slice(s: string, i: nat, j: nat): (r: string)
    requires i <= j
    ensures |r| == (if j <= |s| then j else |s|) - (if i <= |s| then i else |s|)
    ensures forall k :: 0 <= k < |r| ==> r[k] == s[i + k]
  {
    var hi := if j <= |s| then j else |s|;
    var lo := if i <= hi then i else hi;
    s[lo..hi]
  }

  /**
   * `hhmmss_to_seconds`: hours, minutes and seconds are `int` of the slices
   * [0:2], [2:4] and [4:6]; any of them failing to parse fails the whole call.
   */
  function HhmmssToSeconds(hhmmss: string): (r: Option<nat>)
    ensures r.Some? <==> |hhmmss| >= 5 && forall k :: 0 <= k < 6 && k < |hhmmss| ==> IsDigit(hhmmss[k])
  {
    var h := ParseDecimal(Slice(hhmmss, 0, 2));
    var m := ParseDecimal(Slice(hhmmss, 2, 4));
    var s := ParseDecimal(Slice(hhmmss, 4, 6));
    if h.Some? && m.Some? && s.Some? then Some(h.value * 3600 + m.value * 60 + s.value) else None
  }

  lemma TwoDigits(s: string)
    requires |s| == 2 && AllDigits(s)
    ensures ParseDecimal(s) == Some(10 * DigitValue(s[0]) + DigitValue(s[1]))
  {
    assert s[..1] == [s[0]];
  }

  /** For six leading digits the stamp is 3600·HH + 60·MM + SS, each part read as a two-digit decimal. */
  lemma SixDigitSeconds(s: string)
    requires |s| >= 6 && forall k :: 0 <= k < 6 ==> IsDigit(s[k])
    ensures HhmmssToSeconds(s) == Some(3600 * (10 * DigitValue(s[0]) + DigitValue(s[1]))
                                      + 60 * (10 * DigitValue(s[2]) + DigitValue(s[3]))
                                      + (10 * DigitValue(s[4]) + DigitValue(s[5])))
    ensures HhmmssToSeconds(s).value <= 99 * 3600 + 99 * 60 + 99
  {
    assert Slice(s, 0, 2) == [s[0], s[1]];
    assert Slice(s, 2, 4) == [s[2], s[3]];
    assert Slice(s, 4, 6) == [s[4], s[5]];
    TwoDigits(Slice(s, 0, 2));
    TwoDigits(Slice(s, 2, 4));
    TwoDigits(Slice(s, 4, 6));
  }

  // ---------------------------------------------------------------------------
  // The time stamp of a recording name: re.search(r"_(\d{6})_", f)
  // ---------------------------------------------------------------------------

  /** `_dddddd_` occurs in `f` starting at position `i`. */
  predicate StampAt(f: string, i: int) {
    0 <= i && i + 8 <= |f| && f[i] == '_' && f[i + 7] == '_' && AllDigits(f[i + 1..i + 7])
  }

  /** The leftmost match at or after `from`: a fixed-length pattern matches leftmost-first. */
  function FindStamp(f: string, from: nat): (r: Option<nat>)
    ensures r.Some? ==> from <= r.value && StampAt(f, r.value)
    ensures r.Some? ==> forall j :: from <= j < r.value ==> !StampAt(f, j)
    ensures r.None? ==> forall j :: from <= j ==> !StampAt(f, j)
    decreases |f| - from
  {
    if from + 8 > |f| then None
    else if StampAt(f, from) then Some(from)
    else FindStamp(f, from + 1)
  }

  /** Seconds of day of a name's leftmost stamp; None when the name has none. */
  function StampSeconds(f: string): (r: Option<nat>)
    ensures r.Some? <==> FindStamp(f, 0).Some?
  {
    match FindStamp(f, 0)
    case None => None
    case Some(i) =>
      var stamp := f[i + 1..i + 7];
      assert forall k :: 0 <= k < 6 ==> IsDigit(stamp[k]);
      HhmmssToSeconds(stamp)
  }

  /** A name has a time exactly when `_dddddd_` occurs in it; the time is read from the leftmost occurrence. */
  lemma StampSecondsLeftmost(f: string)
    ensures StampSeconds(f).Some? <==> exists i :: StampAt(f, i)
    ensures StampSeconds(f).Some? ==>
              exists i :: StampAt(f, i) && (forall j :: 0 <= j < i ==> !StampAt(f, j))
                          && StampSeconds(f) == HhmmssToSeconds(f[i + 1..i + 7])
  {
    var found := FindStamp(f, 0);
    if found.Some? {
      var i := found.value;
      var stamp := f[i + 1..i + 7];
      assert StampAt(f, i);
      assert StampSeconds(f) == HhmmssToSeconds(stamp);
    }
  }

  predicate HasStamp(f: string) {
    StampSeconds(f).Some?
  }

  function TimeOf(f: string): nat
    requires HasStamp(f)
  {
    StampSeconds(f).value
  }

  /** The names kept by the loop of `circular_sort`: those with a stamp, in input order. */
  function Matched(files: seq<string>): seq<string> {
    Filter(files, HasStamp)
  }

  // ---------------------------------------------------------------------------
  // (time, name) pairs
  // ---------------------------------------------------------------------------

  datatype Entry = Entry(time: nat, name: string)

  /** `time_file_pairs` after the loop: one entry per stamped name, in input order. */
  function Pairs(files: seq<string>): seq<Entry> {
    if files == [] then []
    else
      var f := files[|files| - 1];
      Pairs(files[..|files| - 1]) + (match StampSeconds(f) case None => [] case Some(t) => [Entry(t, f)])
  }

  // ---------------------------------------------------------------------------
  // Stable sort by time: `time_file_pairs.sort(key=lambda x: x[0])`
  // ---------------------------------------------------------------------------

  ghost predicate SortedByTime(s: seq<Entry>) {
    forall i, j :: 0 <= i < j < |s| ==> s[i].time <= s[j].time
  }

  /** Where an insertion sort puts `x` into `s`: after the last element not later than `x`. */
  function InsertPos(s: seq<Entry>, x: Entry): (p: nat)
    ensures p <= |s|
    ensures forall k :: p <= k < |s| ==> s[k].time > x.time
    ensures p > 0 ==> s[p - 1].time <= x.time
  {
    if s == [] || s[|s| - 1].time <= x.time then |s| else InsertPos(s[..|s| - 1], x)
  }

  /** The two properties of InsertPos determine it. */
  lemma InsertPosUnique(s: seq<Entry>, x: Entry, j: nat)
    requires j <= |s|
    requires forall k :: j <= k < |s| ==> s[k].time > x.time
    requires j > 0 ==> s[j - 1].time <= x.time
    ensures InsertPos(s, x) == j
  {
  }

  function Insert(s: seq<Entry>, x: Entry): (r: seq<Entry>)
    ensures |r| == |s| + 1
  {
    var p := InsertPos(s, x);
    s[..p] + [x] + s[p..]
  }

  /** Insertion sort, consuming the input from the left. */
  function StableSort(s: seq<Entry>): (r: seq<Entry>)
    ensures |r| == |s|
  {
    if s == [] then [] else Insert(StableSort(s[..|s| - 1]), s[|s| - 1])
  }

  function AtTime(t: int): Entry -> bool {
    (e: Entry) => e.time == t
  }

  lemma InsertPermutation(s: seq<Entry>, x: Entry)
    ensures multiset(Insert(s, x)) == multiset(s) + multiset{x}
  {
    var p := InsertPos(s, x);
    assert s == s[..p] + s[p..];
  }

  lemma InsertSorted(s: seq<Entry>, x: Entry)
    requires SortedByTime(s)
    ensures SortedByTime(Insert(s, x))
  {
    var p := InsertPos(s, x);
    var r := Insert(s, x);
    assert forall k :: 0 <= k < p ==> r[k] == s[k];
    assert r[p] == x;
    assert forall k :: p < k < |r| ==> r[k] == s[k - 1];
    forall i, j | 0 <= i < j < |r| ensures r[i].time <= r[j].time {
      if j < p {
        assert r[i] == s[i] && r[j] == s[j];
      } else if j == p {
        assert s[i].time <= s[p - 1].time;
      } else if i < p {
        assert r[i] == s[i] && r[j] == s[j - 1];
      } else if i > p {
        assert r[i] == s[i - 1] && r[j] == s[j - 1];
      }
    }
  }

  /** Among entries of one time, the inserted one comes last. */
  lemma InsertAtTime(s: seq<Entry>, x: Entry, t: int)
    ensures Filter(Insert(s, x), AtTime(t)) == Filter(s, AtTime(t)) + Filter([x], AtTime(t))
  {
    if x.time == t {
      InsertAtOwnTime(s, x);
    } else {
      InsertAtOtherTime(s, x, t);
    }
  }

  /** Filtering an insertion filters the three pieces around the insertion point. */
  lemma FilterInsert(s: seq<Entry>, x: Entry, P: Entry -> bool)
    ensures Filter(Insert(s, x), P)
         == Filter(s[..InsertPos(s, x)], P) + Filter([x], P) + Filter(s[InsertPos(s, x)..], P)
    ensures Filter(s, P) == Filter(s[..InsertPos(s, x)], P) + Filter(s[InsertPos(s, x)..], P)
  {
    var p := InsertPos(s, x);
    FilterConcat(s[..p] + [x], s[p..], P);
    FilterConcat(s[..p], [x], P);
    FilterSplit(s, p, P);
  }

  lemma InsertAtOwnTime(s: seq<Entry>, x: Entry)
    ensures Filter(Insert(s, x), AtTime(x.time)) == Filter(s, AtTime(x.time)) + [x]
  {
    FilterInsert(s, x, AtTime(x.time));
    FilterNone(s[InsertPos(s, x)..], AtTime(x.time));
  }

  lemma InsertAtOtherTime(s: seq<Entry>, x: Entry, t: int)
    requires x.time != t
    ensures Filter(Insert(s, x), AtTime(t)) == Filter(s, AtTime(t))
  {
    var p := InsertPos(s, x);
    FilterInsert(s, x, AtTime(t));
    assert [x][1..] == [];
    assert Filter([x], AtTime(t)) == [];
    assert Filter(s[..p], AtTime(t)) + [] == Filter(s[..p], AtTime(t));
  }

  /** The sort yields a time-ordered sequence. */
  lemma {:induction false} StableSortSorted(s: seq<Entry>)
    ensures SortedByTime(StableSort(s))
  {
    if s != [] {
      StableSortSorted(s[..|s| - 1]);
      InsertSorted(StableSort(s[..|s| - 1]), s[|s| - 1]);
    }
  }

  /** The sort yields a permutation of its input. */
  lemma {:induction false} StableSortPermutation(s: seq<Entry>)
    ensures multiset(StableSort(s)) == multiset(s)
  {
    if s != [] {
      var init, x := s[..|s| - 1], s[|s| - 1];
      StableSortPermutation(init);
      InsertPermutation(StableSort(init), x);
      assert s == init + [x];
    }
  }

  /** Stability: the entries of each time keep their relative input order. */
  lemma {:induction false} StableSortStable(s: seq<Entry>, t: int)
    ensures Filter(StableSort(s), AtTime(t)) == Filter(s, AtTime(t))
  {
    if s != [] {
      var init, x := s[..|s| - 1], s[|s| - 1];
      StableSortStable(init, t);
      InsertAtTime(StableSort(init), x, t);
      assert s == init + [x];
      FilterConcat(init, [x], AtTime(t));
    }
  }

  /** One insertion step: shift the later entries of the sorted prefix right and drop `a[i]` into the gap. */
  method InsertLast(a: array<Entry>, i: nat)
    requires i < a.Length
    modifies a
    ensures a[..i + 1] == Insert(old(a[..i]), old(a[i]))
    ensures forall k :: i < k < a.Length ==> a[k] == old(a[k])
  {
    var x := a[i];
    ghost var s := a[..i];
    var j := i;
    while j > 0 && a[j - 1].time > x.time
      invariant 0 <= j <= i
      invariant forall k :: 0 <= k < j ==> a[k] == s[k]
      invariant forall k :: j < k <= i ==> a[k] == s[k - 1]
      invariant forall k :: j <= k < i ==> s[k].time > x.time
      invariant forall k :: i < k < a.Length ==> a[k] == old(a[k])
    {
      a[j] := a[j - 1];
      j := j - 1;
    }
    a[j] := x;
    InsertPosUnique(s, x, j);
    InsertedAt(s, x, j, a[..i + 1]);
  }

  /** A sequence that agrees with `s` before `j`, holds `x` at `j` and `s` shifted right after it. */
  lemma InsertedAt(s: seq<Entry>, x: Entry, j: nat, r: seq<Entry>)
    requires j <= |s| && |r| == |s| + 1
    requires forall k :: 0 <= k < j ==> r[k] == s[k]
    requires r[j] == x
    requires forall k :: j < k < |r| ==> r[k] == s[k - 1]
    ensures r == s[..j] + [x] + s[j..]
  {
  }

  /** `list.sort` in place, as an insertion sort over the array. */
  method SortByTime(a: array<Entry>)
    modifies a
    ensures a[..] == StableSort(old(a[..]))
  {
    ghost var input := a[..];
    var i := 0;
    while i < a.Length
      invariant 0 <= i <= a.Length
      invariant a[..i] == StableSort(input[..i])
      invariant forall k :: i <= k < a.Length ==> a[k] == input[k]
    {
      ghost var sorted := a[..i];
      assert a[i] == input[i];
      InsertLast(a, i);
      StableSortStep(input, i);
      i := i + 1;
    }
    assert input[..a.Length] == input;
  }

  /** Sorting one more element of the input inserts it into the sorted prefix. */
  lemma StableSortStep(input: seq<Entry>, i: nat)
    requires i < |input|
    ensures StableSort(input[..i + 1]) == Insert(StableSort(input[..i]), input[i])
  {
    var prefix := input[..i + 1];
    assert prefix[..i] == input[..i] && prefix[i] == input[i];
  }

  // ---------------------------------------------------------------------------
  // The rotation: the day starts at the first time >= offset
  // ---------------------------------------------------------------------------

  function SearchAtLeast(s: seq<Entry>, off: int, from: nat): (r: Option<nat>)
    ensures r.Some? ==> from <= r.value < |s| && s[r.value].time >= off
    ensures r.Some? ==> forall j :: from <= j < r.value ==> s[j].time < off
    ensures r.None? ==> forall j :: from <= j < |s| ==> s[j].time < off
    decreases |s| - from
  {
    if from >= |s| then None
    else if s[from].time >= off then Some(from)
    else SearchAtLeast(s, off, from + 1)
  }

  /** `next((i for i, t in enumerate(times) if t >= offset_sec), 0)`. */
  function FirstAtLeast(s: seq<Entry>, off: int): (idx: nat)
    ensures idx <= |s|
    ensures (exists i :: 0 <= i < |s| && s[i].time >= off) ==>
              idx < |s| && s[idx].time >= off && forall j :: 0 <= j < idx ==> s[j].time < off
    ensures (forall i :: 0 <= i < |s| ==> s[i].time < off) ==> idx == 0
  {
    match SearchAtLeast(s, off, 0)
    case None => 0
    case Some(i) => i
  }

  /** `time_file_pairs[idx:] + time_file_pairs[:idx]`. */
  function Rotate(a: seq<Entry>, off: int): (r: seq<Entry>)
    ensures |r| == |a|
  {
    var idx := FirstAtLeast(a, off);
    a[idx..] + a[..idx]
  }

  lemma RotatePermutation(a: seq<Entry>, off: int)
    ensures multiset(Rotate(a, off)) == multiset(a)
  {
    var idx := FirstAtLeast(a, off);
    assert a == a[..idx] + a[idx..];
  }

  /** Rotating a time-ordered list keeps the entries of each time together and in order. */
  lemma RotationAtTime(a: seq<Entry>, off: int, t: int)
    requires SortedByTime(a)
    ensures Filter(Rotate(a, off), AtTime(t)) == Filter(a, AtTime(t))
  {
    var idx := FirstAtLeast(a, off);
    FilterConcat(a[idx..], a[..idx], AtTime(t));
    FilterSplit(a, idx, AtTime(t));
    if exists i :: 0 <= i < |a| && a[i].time >= off {
      if t >= off {
        FilterNone(a[..idx], AtTime(t));
      } else {
        forall k | 0 <= k < |a[idx..]| ensures !AtTime(t)(a[idx..][k]) {
          assert a[idx].time <= a[idx + k].time;
        }
        FilterNone(a[idx..], AtTime(t));
      }
    } else {
      assert a[..0] == [];
    }
  }

  /** With no time at or after the offset, nothing is rotated. */
  lemma RotateNone(a: seq<Entry>, off: int)
    requires forall i :: 0 <= i < |a| ==> a[i].time < off
    ensures FirstAtLeast(a, off) == 0 && Rotate(a, off) == a
  {
    assert a[0..] == a && a[..0] == [];
  }

  /** The first |a| - idx rotated entries are those at or after the offset, in time order. */
  lemma RotateLate(a: seq<Entry>, off: int)
    requires SortedByTime(a)
    requires exists i :: 0 <= i < |a| && a[i].time >= off
    ensures var r, m := Rotate(a, off), |a| - FirstAtLeast(a, off);
            (forall i :: 0 <= i < m ==> r[i].time >= off) &&
            (forall i, j :: 0 <= i < j < m ==> r[i].time <= r[j].time)
  {
    var idx := FirstAtLeast(a, off);
    var r, m := Rotate(a, off), |a| - idx;
    assert forall i :: 0 <= i < m ==> r[i] == a[idx + i];
    forall i | 0 <= i < m ensures r[i].time >= off {
      assert a[idx].time <= a[idx + i].time;
    }
  }

  /** The last idx rotated entries are those before the offset, in time order. */
  lemma RotateEarly(a: seq<Entry>, off: int)
    requires SortedByTime(a)
    ensures var r, m := Rotate(a, off), |a| - FirstAtLeast(a, off);
            (forall i :: m <= i < |r| ==> r[i].time < off) &&
            (forall i, j :: m <= i < j < |r| ==> r[i].time <= r[j].time)
  {
    var idx := FirstAtLeast(a, off);
    var r, m := Rotate(a, off), |a| - idx;
    assert forall i :: m <= i < |r| ==> r[i] == a[i - m];
  }

  // ---------------------------------------------------------------------------
  // From entries back to names
  // ---------------------------------------------------------------------------

  function Names(s: seq<Entry>): (r: seq<string>)
    ensures |r| == |s|
  {
    seq(|s|, i requires 0 <= i < |s| => s[i].name)
  }

  lemma NamesConcat(a: seq<Entry>, b: seq<Entry>)
    ensures Names(a + b) == Names(a) + Names(b)
  {
  }

  function Named(n: string): Entry -> bool {
    (e: Entry) => e.name == n
  }

  /** A name occurs in the names as often as entries carry it. */
  lemma {:induction false} NamesCount(s: seq<Entry>, n: string)
    ensures multiset(Names(s))[n] == |Filter(s, Named(n))|
  {
    if s != [] {
      NamesCount(s[1..], n);
      assert Names(s) == [s[0].name] + Names(s[1..]);
    }
  }

  /** Names of a permutation are a permutation of the names. */
  lemma NamesPermutation(a: seq<Entry>, b: seq<Entry>)
    requires multiset(a) == multiset(b)
    ensures multiset(Names(a)) == multiset(Names(b))
  {
    forall n ensures multiset(Names(a))[n] == multiset(Names(b))[n] {
      NamesCount(a, n);
      NamesCount(b, n);
      FilterPermutation(a, b, Named(n));
    }
  }

  /** Every entry carries the time that `key` gives its name. */
  ghost predicate Consistent(s: seq<Entry>, key: string -> Option<nat>) {
    forall e | e in s :: key(e.name) == Some(e.time)
  }

  lemma ConsistentPermutation(a: seq<Entry>, b: seq<Entry>, key: string -> Option<nat>)
    requires Consistent(a, key) && multiset(a) == multiset(b)
    ensures Consistent(b, key)
  {
    forall e | e in b ensures key(e.name) == Some(e.time) {
      assert e in multiset(b);
    }
  }

  function KeyIs(key: string -> Option<nat>, t: int): string -> bool {
    (f: string) => key(f) == Some(t)
  }

  /** Selecting the names of one time selects the entries of that time. */
  lemma {:induction false} NamesAtTime(s: seq<Entry>, key: string -> Option<nat>, t: int)
    requires Consistent(s, key)
    ensures Filter(Names(s), KeyIs(key, t)) == Names(Filter(s, AtTime(t)))
  {
    if s != [] {
      var rest := s[1..];
      assert Consistent(rest, key) by {
        forall e | e in rest ensures e in s {}
      }
      NamesAtTime(rest, key, t);
      assert Names(s)[1..] == Names(rest);
      assert key(s[0].name) == Some(s[0].time) by { assert s[0] in s; }
      if s[0].time == t {
        assert Filter(s, AtTime(t)) == [s[0]] + Filter(rest, AtTime(t));
        assert Filter(Names(s), KeyIs(key, t)) == [s[0].name] + Filter(Names(rest), KeyIs(key, t));
        NamesConcat([s[0]], Filter(rest, AtTime(t)));
      } else {
        assert Filter(s, AtTime(t)) == Filter(rest, AtTime(t));
        assert Filter(Names(s), KeyIs(key, t)) == Filter(Names(rest), KeyIs(key, t));
      }
    }
  }

  /** Each name of a consistent entry list has the entry's time. */
  lemma NamesTimes(s: seq<Entry>, key: string -> Option<nat>)
    requires Consistent(s, key)
    ensures forall i :: 0 <= i < |s| ==> key(Names(s)[i]) == Some(s[i].time)
  {
    forall i | 0 <= i < |s| ensures key(Names(s)[i]) == Some(s[i].time) {
      assert s[i] in s;
    }
  }

  /** The pairs list holds exactly the stamped names, in order, each with its own stamp's time. */
  lemma {:induction false} PairsMatched(files: seq<string>)
    ensures Names(Pairs(files)) == Matched(files)
    ensures Consistent(Pairs(files), StampSeconds)
  {
    if files != [] {
      var init, f := files[..|files| - 1], files[|files| - 1];
      PairsMatched(init);
      assert files == init + [f];
      FilterConcat(init, [f], HasStamp);
      assert [f][1..] == [];
      var tail := match StampSeconds(f) case None => [] case Some(t) => [Entry(t, f)];
      NamesConcat(Pairs(init), tail);
    }
  }

  /** Names whose stamp reads `t` seconds. */
  function HasTime(t: int): string -> bool {
    KeyIs(StampSeconds, t)
  }

  // ---------------------------------------------------------------------------
  // What circular_sort returns
  // ---------------------------------------------------------------------------

  /** The time-ascending list of names (line 70). */
  function Ascending(files: seq<string>): seq<string> {
    Names(StableSort(Pairs(files)))
  }

  /** The position in the ascending list at which the rotated order starts. */
  function StartIndex(files: seq<string>, off: int): nat {
    FirstAtLeast(StableSort(Pairs(files)), off)
  }

  /** The result of `circular_sort` once the offset is known in seconds. */
  function CircularOrder(files: seq<string>, off: int): seq<string> {
    Names(Rotate(StableSort(Pairs(files)), off))
  }

  /** The sorted and the rotated entries are consistent, time-ordered permutations of the pairs. */
  lemma OrderedEntries(files: seq<string>, off: int)
    ensures SortedByTime(StableSort(Pairs(files)))
    ensures multiset(Rotate(StableSort(Pairs(files)), off)) == multiset(Pairs(files))
    ensures Consistent(StableSort(Pairs(files)), StampSeconds)
    ensures Consistent(Rotate(StableSort(Pairs(files)), off), StampSeconds)
  {
    var p := Pairs(files);
    PairsMatched(files);
    StableSortSorted(p);
    StableSortPermutation(p);
    RotatePermutation(StableSort(p), off);
    ConsistentPermutation(p, StableSort(p), StampSeconds);
    ConsistentPermutation(p, Rotate(StableSort(p), off), StampSeconds);
  }

  /** The time-ascending list holds stamped names in non-decreasing time. */
  lemma AscendingSorted(files: seq<string>)
    ensures forall i :: 0 <= i < |Ascending(files)| ==> HasStamp(Ascending(files)[i])
    ensures forall i, j :: 0 <= i < j < |Ascending(files)| ==> TimeOf(Ascending(files)[i]) <= TimeOf(Ascending(files)[j])
  {
    var a := StableSort(Pairs(files));
    OrderedEntries(files, 0);
    NamesTimes(a, StampSeconds);
  }

  /** The sort is stable: names of one time keep their input order. */
  lemma AscendingStable(files: seq<string>, t: int)
    ensures Filter(Ascending(files), HasTime(t)) == Filter(Matched(files), HasTime(t))
  {
    var p := Pairs(files);
    OrderedEntries(files, 0);
    PairsMatched(files);
    NamesAtTime(StableSort(p), StampSeconds, t);
    StableSortStable(p, t);
    NamesAtTime(p, StampSeconds, t);
  }

  /** The output is the ascending list rotated left by StartIndex: `sorted[idx:] + sorted[:idx]`. */
  lemma CircularOrderIsRotation(files: seq<string>, off: int)
    ensures StartIndex(files, off) <= |Ascending(files)|
    ensures CircularOrder(files, off)
         == Ascending(files)[StartIndex(files, off)..] + Ascending(files)[..StartIndex(files, off)]
  {
    var a := StableSort(Pairs(files));
    var idx := FirstAtLeast(a, off);
    NamesConcat(a[idx..], a[..idx]);
    assert Names(a[idx..]) == Names(a)[idx..];
    assert Names(a[..idx]) == Names(a)[..idx];
  }

  /** Stability survives the rotation: names of each time keep their relative input order. */
  lemma CircularOrderStable(files: seq<string>, off: int, t: int)
    ensures Filter(CircularOrder(files, off), HasTime(t)) == Filter(Matched(files), HasTime(t))
  {
    var p := Pairs(files);
    var a := StableSort(p);
    OrderedEntries(files, off);
    PairsMatched(files);
    NamesAtTime(Rotate(a, off), StampSeconds, t);
    RotationAtTime(a, off, t);
    StableSortStable(p, t);
    NamesAtTime(p, StampSeconds, t);
  }

  /** The output is a permutation of the stamped names. */
  lemma CircularOrderPermutation(files: seq<string>, off: int)
    ensures multiset(CircularOrder(files, off)) == multiset(Matched(files))
    ensures |CircularOrder(files, off)| == |Matched(files)|
  {
    OrderedEntries(files, off);
    PairsMatched(files);
    NamesPermutation(Rotate(StableSort(Pairs(files)), off), Pairs(files));
  }

  /** Some stamped name has a time at or after the offset. */
  predicate SomeLate(files: seq<string>, off: int) {
    exists i :: 0 <= i < |Matched(files)| && TimeOf(Matched(files)[i]) >= off
  }

  /** A late entry of one list has a copy in any permutation of it. */
  lemma LateEntries(p: seq<Entry>, a: seq<Entry>, off: int)
    requires multiset(p) == multiset(a)
    ensures (exists i :: 0 <= i < |p| && p[i].time >= off) ==> (exists k :: 0 <= k < |a| && a[k].time >= off)
  {
    if exists i :: 0 <= i < |p| && p[i].time >= off {
      var i :| 0 <= i < |p| && p[i].time >= off;
      assert p[i] in multiset(a);
      var k :| 0 <= k < |a| && a[k] == p[i];
    }
  }

  /** The matched names carry the times of the pairs, position by position. */
  lemma MatchedTimes(files: seq<string>)
    ensures |Matched(files)| == |Pairs(files)|
    ensures forall i :: 0 <= i < |Pairs(files)| ==> TimeOf(Matched(files)[i]) == Pairs(files)[i].time
  {
    PairsMatched(files);
    NamesTimes(Pairs(files), StampSeconds);
  }

  /** A stamped name is late exactly when some sorted entry is. */
  lemma LateSorted(files: seq<string>, off: int)
    ensures SomeLate(files, off) <==> exists k :: 0 <= k < |StableSort(Pairs(files))| && StableSort(Pairs(files))[k].time >= off
    ensures !SomeLate(files, off) ==> forall k :: 0 <= k < |StableSort(Pairs(files))| ==> StableSort(Pairs(files))[k].time < off
  {
    var p := Pairs(files);
    var a := StableSort(p);
    MatchedTimes(files);
    StableSortPermutation(p);
    LateEntries(p, a, off);
    LateEntries(a, p, off);
  }

  /** Every output name is stamped, with the time of the rotated entry at its position. */
  lemma CircularOrderTimes(files: seq<string>, off: int)
    ensures |CircularOrder(files, off)| == |Rotate(StableSort(Pairs(files)), off)|
    ensures forall i :: 0 <= i < |CircularOrder(files, off)| ==>
              HasStamp(CircularOrder(files, off)[i]) &&
              TimeOf(CircularOrder(files, off)[i]) == Rotate(StableSort(Pairs(files)), off)[i].time
  {
    OrderedEntries(files, off);
    NamesTimes(Rotate(StableSort(Pairs(files)), off), StampSeconds);
  }

  /**
   * When some stamped name is at or after the offset, the first |out| - idx names
   * are exactly those, in ascending time.
   */
  lemma CircularOrderLate(files: seq<string>, off: int)
    requires SomeLate(files, off)
    ensures var out, m := CircularOrder(files, off), |CircularOrder(files, off)| - StartIndex(files, off);
            0 <= m <= |out| &&
            (forall i :: 0 <= i < |out| ==> HasStamp(out[i])) &&
            (forall i :: 0 <= i < m ==> TimeOf(out[i]) >= off) &&
            (forall i, j :: 0 <= i < j < m ==> TimeOf(out[i]) <= TimeOf(out[j]))
  {
    var a := StableSort(Pairs(files));
    CircularOrderTimes(files, off);
    StableSortSorted(Pairs(files));
    LateSorted(files, off);
    RotateLate(a, off);
  }

  /** The last idx names of the output are before the offset, in ascending time. */
  lemma CircularOrderEarly(files: seq<string>, off: int)
    ensures var out, m := CircularOrder(files, off), |CircularOrder(files, off)| - StartIndex(files, off);
            0 <= m <= |out| &&
            (forall i :: 0 <= i < |out| ==> HasStamp(out[i])) &&
            (forall i :: m <= i < |out| ==> TimeOf(out[i]) < off) &&
            (forall i, j :: m <= i < j < |out| ==> TimeOf(out[i]) <= TimeOf(out[j]))
  {
    var a := StableSort(Pairs(files));
    CircularOrderTimes(files, off);
    StableSortSorted(Pairs(files));
    RotateEarly(a, off);
  }

  /** With no stamped name at or after the offset, the output is plain ascending order. */
  lemma CircularOrderNoneLate(files: seq<string>, off: int)
    requires forall i :: 0 <= i < |Matched(files)| ==> TimeOf(Matched(files)[i]) < off
    ensures StartIndex(files, off) == 0 && CircularOrder(files, off) == Ascending(files)
  {
    var a := StableSort(Pairs(files));
    assert !SomeLate(files, off);
    LateSorted(files, off);
    RotateNone(a, off);
  }

  /**
   * `circular_sort`: collect the (time, name) pairs of the stamped names, sort them
   * stably by time, then rotate. An unparsable offset raises in the source (None here).
   */
  method CircularSort(files: seq<string>, offset: string) returns (r: Option<seq<string>>)
    ensures HhmmssToSeconds(offset).None? ==> r.None?
    ensures HhmmssToSeconds(offset).Some? ==> r == Some(CircularOrder(files, HhmmssToSeconds(offset).value))
  {
    var pairs: seq<Entry> := [];
    var i := 0;
    while i < |files|
      invariant 0 <= i <= |files|
      invariant pairs == Pairs(files[..i])
    {
      var f := files[i];
      var t := StampSeconds(f);
      assert files[..i + 1] == files[..i] + [f];
      assert files[..i + 1][..i] == files[..i];
      if t.Some? {
        pairs := pairs + [Entry(t.value, f)];
      }
      i := i + 1;
    }
    assert files[..|files|] == files;
    var a := new Entry[|pairs|](j requires 0 <= j < |pairs| => pairs[j]);
    assert a[..] == pairs;
    SortByTime(a);
    var offsetSec := HhmmssToSeconds(offset);
    if offsetSec.None? {
      return None;
    }
    var idx := FirstAtLeast(a[..], offsetSec.value);
    NamesConcat(a[idx..], a[..idx]);
    r := Some(Names(a[idx..]) + Names(a[..idx]));
  }

  // ---------------------------------------------------------------------------
  // The station filter: `[f for f in files if station in f]`
  // ---------------------------------------------------------------------------

  /** Python's `sub in s` for strings. */
  predicate IsSubstring(sub: string, s: string)
    decreases |s|
  {
    |sub| <= |s| && (sub == s[..|sub|] || (|s| > 0 && IsSubstring(sub, s[1..])))
  }

  /** `sub` occurs in `s` at position `i`. */
  predicate OccursAt(sub: string, s: string, i: int) {
    0 <= i && i + |sub| <= |s| && s[i..i + |sub|] == sub
  }

  /** `sub in s` holds exactly when `sub` occurs at some position of `s`. */
  lemma {:induction false} IsSubstringAt(sub: string, s: string)
    ensures IsSubstring(sub, s) <==> exists i :: OccursAt(sub, s, i)
    decreases |s|
  {
    if |sub| <= |s| {
      assert OccursAt(sub, s, 0) <==> sub == s[..|sub|];
      if |s| > 0 {
        IsSubstringAt(sub, s[1..]);
        forall i | 0 <= i ensures OccursAt(sub, s[1..], i) <==> OccursAt(sub, s, i + 1) {
          if i + |sub| <= |s| - 1 {
            assert s[1..][i..i + |sub|] == s[i + 1..i + 1 + |sub|];
          }
        }
        if exists i :: OccursAt(sub, s, i) {
          var i :| OccursAt(sub, s, i);
          if i > 0 {
            assert OccursAt(sub, s[1..], i - 1);
          }
        }
      }
    }
  }

  function StationFiles(files: seq<string>, station: string): seq<string> {
    Filter(files, (f: string) => IsSubstring(station, f))
  }

  /** The station filter keeps exactly the names containing the station, as often and in the order they occur. */
  lemma StationFilterExact(files: seq<string>, station: string)
    ensures forall i :: 0 <= i < |StationFiles(files, station)| ==> IsSubstring(station, StationFiles(files, station)[i])
    ensures forall f :: multiset(StationFiles(files, station))[f]
                     == if IsSubstring(station, f) then multiset(files)[f] else 0
    ensures IsSubsequence(StationFiles(files, station), files)
  {
    var p := (f: string) => IsSubstring(station, f);
    forall f ensures multiset(StationFiles(files, station))[f] == if IsSubstring(station, f) then multiset(files)[f] else 0 {
      FilterMultiplicity(files, p, f);
    }
    FilterIsSubsequence(files, p);
  }
}
