/** The JSON half of the tag combiner (`combine_json` in
    src/backend/Combine.py): the per-tag `timestamp -> count` files are cut to
    their common window, from the latest first timestamp to the earliest last
    one, and summed per timestamp. */
module TagWindow {
  import opened Wrappers
  import opened Lex

  /** One `timestamp: count` pair of a tag's JSON file, in file order. */
  datatype Tally = Tally(timestamp: string, count: int)

  /** One tag's `{tag}_instadata.json`; `None` when the file does not exist. */
  type TagFile = Option<seq<Tally>>

  /** `sorted(data.keys())[0]`: the smallest timestamp of a non-empty file. */
  function FirstKey(d: seq<Tally>): (k: string)
    requires |d| > 0
    ensures exists i :: 0 <= i < |d| && d[i].timestamp == k
    ensures forall i :: 0 <= i < |d| ==> LessEq(k, d[i].timestamp)
  {
    if |d| == 1 then d[0].timestamp
    else
      var rest := FirstKey(d[1..]);
      assert forall i :: 1 <= i < |d| ==> d[i] == d[1..][i - 1];
      if Less(d[0].timestamp, rest) then
        forall i | 1 <= i < |d| ensures LessEq(d[0].timestamp, d[i].timestamp) {
          LessEqTransitive(d[0].timestamp, rest, d[i].timestamp);
        }
        d[0].timestamp
      else
        Trichotomy(d[0].timestamp, rest);
        rest
  }

  /** `sorted(data.keys())[-1]`: the largest timestamp of a non-empty file. */
  function LastKey(d: seq<Tally>): (k: string)
    requires |d| > 0
    ensures exists i :: 0 <= i < |d| && d[i].timestamp == k
    ensures forall i :: 0 <= i < |d| ==> LessEq(d[i].timestamp, k)
  {
    if |d| == 1 then d[0].timestamp
    else
      var rest := LastKey(d[1..]);
      assert forall i :: 1 <= i < |d| ==> d[i] == d[1..][i - 1];
      if Less(rest, d[0].timestamp) then
        forall i | 1 <= i < |d| ensures LessEq(d[i].timestamp, d[0].timestamp) {
          LessEqTransitive(d[i].timestamp, rest, d[0].timestamp);
        }
        d[0].timestamp
      else
        Trichotomy(d[0].timestamp, rest);
        rest
  }

  /** The files that exist and hold at least one timestamp. */
  predicate Useful(f: TagFile) {
    f.Some? && |f.value| > 0
  }

  /** `start_times`: the first timestamp of every useful file, in tag order. */
  function Starts(files: seq<TagFile>): (r: seq<string>)
    ensures forall k :: k in r <==> exists f :: f in files && Useful(f) && k == FirstKey(f.value)
  {
    if |files| == 0 then []
    else
      var init := files[..|files| - 1];
      var f := files[|files| - 1];
      assert files == init + [f];
      Starts(init) + if Useful(f) then [FirstKey(f.value)] else []
  }

  /** `end_times`: the last timestamp of every useful file, in tag order. */
  function Ends(files: seq<TagFile>): (r: seq<string>)
    ensures forall k :: k in r <==> exists f :: f in files && Useful(f) && k == LastKey(f.value)
  {
    if |files| == 0 then []
    else
      var init := files[..|files| - 1];
      var f := files[|files| - 1];
      assert files == init + [f];
      Ends(init) + if Useful(f) then [LastKey(f.value)] else []
  }

  /** `max(xs) if xs else None`. */
  function Latest(xs: seq<string>): (r: Option<string>)
    ensures r.None? <==> |xs| == 0
    ensures r.Some? ==> r.value in xs && forall x :: x in xs ==> LessEq(x, r.value)
  {
    if |xs| == 0 then None
    else
      var rest := Latest(xs[1..]);
      assert xs == [xs[0]] + xs[1..];
      if rest.None? then Some(xs[0])
      else if Less(rest.value, xs[0]) then
        forall x | x in xs[1..] ensures LessEq(x, xs[0]) {
          LessEqTransitive(x, rest.value, xs[0]);
        }
        Some(xs[0])
      else
        Trichotomy(rest.value, xs[0]);
        rest
  }

  /** `min(xs) if xs else None`. */
  function Earliest(xs: seq<string>): (r: Option<string>)
    ensures r.None? <==> |xs| == 0
    ensures r.Some? ==> r.value in xs && forall x :: x in xs ==> LessEq(r.value, x)
  {
    if |xs| == 0 then None
    else
      var rest := Earliest(xs[1..]);
      assert xs == [xs[0]] + xs[1..];
      if rest.None? then Some(xs[0])
      else if Less(xs[0], rest.value) then
        forall x | x in xs[1..] ensures LessEq(xs[0], x) {
          LessEqTransitive(xs[0], rest.value, x);
        }
        Some(xs[0])
      else
        Trichotomy(rest.value, xs[0]);
        rest
  }

  /** `(latest_start, earliest_end)`. */
  datatype Window = Window(latestStart: Option<string>, earliestEnd: Option<string>)

  /** The common window: from the latest first timestamp to the earliest
      last timestamp over the useful files; unbounded when there is none. */
  function CommonWindow(files: seq<TagFile>): (w: Window)
    ensures w.latestStart.None? <==> w.earliestEnd.None?
  {
    StartsEndsAlign(files);
    Window(Latest(Starts(files)), Earliest(Ends(files)))
  }

  /** Every useful file contributes one start and one end. */
  lemma {:induction false} StartsEndsAlign(files: seq<TagFile>)
    ensures |Starts(files)| == |Ends(files)|
  {
    if |files| > 0 {
      StartsEndsAlign(files[..|files| - 1]);
    }
  }

  /** The window's lower bound exists exactly when some file is useful, is
      the first timestamp of one of them, and is not before any of their
      first timestamps. */
  lemma LatestStartBound(files: seq<TagFile>)
    ensures CommonWindow(files).latestStart.None? <==> forall f :: f in files ==> !Useful(f)
    ensures CommonWindow(files).latestStart.Some? ==>
      (exists f :: f in files && Useful(f) && CommonWindow(files).latestStart.value == FirstKey(f.value))
      && forall f :: f in files && Useful(f) ==> LessEq(FirstKey(f.value), CommonWindow(files).latestStart.value)
  {
    var starts := Starts(files);
    assert |starts| > 0 ==> starts[0] in starts;
    forall f | f in files && Useful(f) ensures FirstKey(f.value) in starts {}
  }

  /** The window's upper bound exists exactly when some file is useful, is
      the last timestamp of one of them, and is not after any of their last
      timestamps. */
  lemma EarliestEndBound(files: seq<TagFile>)
    ensures CommonWindow(files).earliestEnd.None? <==> forall f :: f in files ==> !Useful(f)
    ensures CommonWindow(files).earliestEnd.Some? ==>
      (exists f :: f in files && Useful(f) && CommonWindow(files).earliestEnd.value == LastKey(f.value))
      && forall f :: f in files && Useful(f) ==> LessEq(CommonWindow(files).earliestEnd.value, LastKey(f.value))
  {
    var ends := Ends(files);
    assert |ends| > 0 ==> ends[0] in ends;
    forall f | f in files && Useful(f) ensures LastKey(f.value) in ends {}
  }

  /** The corrected window test: a bound applies whenever it exists. */
  predicate InWindow(w: Window, ts: string) {
    && !(w.latestStart.Some? && Less(ts, w.latestStart.value))
    && !(w.earliestEnd.Some? && Less(w.earliestEnd.value, ts))
  }

  /** Python truthiness of an optional string: `None` and `""` are false. */
  predicate Truthy(b: Option<string>) {
    b.Some? && |b.value| > 0
  }

  /** The window test as written: `if latest_start and ts < latest_start`
      and `if earliest_end and ts > earliest_end`, so an empty-string bound is
      ignored. */
  predicate InWindowAsWritten(w: Window, ts: string) {
    && !(Truthy(w.latestStart) && Less(ts, w.latestStart.value))
    && !(Truthy(w.earliestEnd) && Less(w.earliestEnd.value, ts))
  }

  /** The test the chosen variant of `combine_json` applies to a timestamp. */
  predicate Passes(w: Window, asWritten: bool, ts: string) {
    if asWritten then InWindowAsWritten(w, ts) else InWindow(w, ts)
  }

  /** Every pair of every existing file, in tag order then file order. */
  function AllTallies(files: seq<TagFile>): (r: seq<Tally>)
    ensures forall t :: t in r <==> exists f :: f in files && f.Some? && t in f.value
  {
    if |files| == 0 then []
    else
      var init := files[..|files| - 1];
      var f := files[|files| - 1];
      assert files == init + [f];
      AllTallies(init) + if f.Some? then f.value else []
  }

  /** The sum of the counts recorded for timestamp `k`. */
  function SumAt(tallies: seq<Tally>, k: string): int {
    if |tallies| == 0 then 0
    else
      var last := tallies[|tallies| - 1];
      SumAt(tallies[..|tallies| - 1], k) + if last.timestamp == k then last.count else 0
  }

  /** The counts for timestamp `k` summed file by file over the existing
      files: what `aggregated[k]` accumulates when every pair is kept. */
  function FileSum(files: seq<TagFile>, k: string): int {
    if |files| == 0 then 0
    else
      var f := files[|files| - 1];
      FileSum(files[..|files| - 1], k) + if f.Some? then SumAt(f.value, k) else 0
  }

  lemma {:induction false} SumAtAppend(a: seq<Tally>, b: seq<Tally>, k: string)
    ensures SumAt(a + b, k) == SumAt(a, k) + SumAt(b, k)
  {
    if |b| > 0 {
      var binit := b[..|b| - 1];
      SumAtAppend(a, binit, k);
      assert (a + b)[..|a + b| - 1] == a + binit;
      assert (a + b)[|a + b| - 1] == b[|b| - 1];
    } else {
      assert a + b == a;
    }
  }

  /** Every pair of every existing file is visited once: the sum over all
      visited pairs is the sum of the per-file sums, so a timestamp present
      in several files collects the count from each. */
  lemma {:induction false} AllTalliesSum(files: seq<TagFile>, k: string)
    ensures SumAt(AllTallies(files), k) == FileSum(files, k)
  {
    if |files| > 0 {
      var init := files[..|files| - 1];
      var f := files[|files| - 1];
      AllTalliesSum(init, k);
      SumAtAppend(AllTallies(init), if f.Some? then f.value else [], k);
    }
  }

  /** `aggregated[ts] = aggregated.get(ts, 0) + count` over the kept pairs. */
  function Aggregate(tallies: seq<Tally>): (m: map<string, int>)
    ensures forall k :: k in m <==> exists t :: t in tallies && t.timestamp == k
    ensures forall k :: k in m ==> m[k] == SumAt(tallies, k)
  {
    if |tallies| == 0 then map[]
    else
      var init := tallies[..|tallies| - 1];
      var t := tallies[|tallies| - 1];
      assert tallies == init + [t];
      var m := Aggregate(init);
      assert t.timestamp !in m ==> SumAt(init, t.timestamp) == 0 by {
        if t.timestamp !in m {
          SumAtAbsent(init, t.timestamp);
        }
      }
      m[t.timestamp := (if t.timestamp in m then m[t.timestamp] else 0) + t.count]
  }

  lemma {:induction false} SumAtAbsent(tallies: seq<Tally>, k: string)
    requires forall t :: t in tallies ==> t.timestamp != k
    ensures SumAt(tallies, k) == 0
  {
    if |tallies| > 0 {
      var init := tallies[..|tallies| - 1];
      assert forall t :: t in init ==> t in tallies;
      SumAtAbsent(init, k);
      assert tallies[|tallies| - 1] in tallies;
    }
  }

  /** The pairs a window test keeps, in order. */
  function Keep(tallies: seq<Tally>, w: Window, asWritten: bool): (r: seq<Tally>)
    ensures forall t :: t in r <==> t in tallies && Passes(w, asWritten, t.timestamp)
  {
    if |tallies| == 0 then []
    else
      var init := tallies[..|tallies| - 1];
      var t := tallies[|tallies| - 1];
      assert tallies == init + [t];
      Keep(init, w, asWritten) + if Passes(w, asWritten, t.timestamp) then [t] else []
  }

  function TimestampsOf(tallies: seq<Tally>): (r: seq<string>)
    ensures forall k :: k in r <==> exists t :: t in tallies && t.timestamp == k
  {
    var r := seq(|tallies|, i requires 0 <= i < |tallies| => tallies[i].timestamp);
    assert forall t :: t in tallies ==> t.timestamp in r by {
      forall t | t in tallies ensures t.timestamp in r {
        var i :| 0 <= i < |tallies| && tallies[i] == t;
        assert r[i] == t.timestamp;
      }
    }
    r
  }

  /** The items of `agg` in the order of `keys`. */
  function Items(keys: seq<string>, agg: map<string, int>): (r: seq<(string, int)>)
    requires forall k :: k in keys ==> k in agg
    ensures |r| == |keys|
    ensures forall i :: 0 <= i < |r| ==> r[i] == (keys[i], agg[keys[i]])
  {
    seq(|keys|, i requires 0 <= i < |keys| => (keys[i], agg[keys[i]]))
  }

  /** `OrderedDict(sorted(aggregated.items()))`: the per-timestamp sums of
      `tallies`, ordered by timestamp. */
  function SummedItems(tallies: seq<Tally>): (r: seq<(string, int)>)
    ensures forall i, j :: 0 <= i < j < |r| ==> Less(r[i].0, r[j].0)
  {
    var agg := Aggregate(tallies);
    var keys := SortedDistinct(TimestampsOf(tallies));
    assert forall k :: k in keys ==> k in agg;
    Items(keys, agg)
  }

  /** Each timestamp of `tallies` appears once, with its sum. */
  lemma SummedItemsContents(tallies: seq<Tally>)
    ensures forall i :: 0 <= i < |SummedItems(tallies)| ==>
      (exists t :: t in tallies && t.timestamp == SummedItems(tallies)[i].0)
      && SummedItems(tallies)[i].1 == SumAt(tallies, SummedItems(tallies)[i].0)
    ensures forall t :: t in tallies ==>
      exists i :: 0 <= i < |SummedItems(tallies)| && SummedItems(tallies)[i].0 == t.timestamp
  {
    var agg := Aggregate(tallies);
    var keys := SortedDistinct(TimestampsOf(tallies));
    var r := SummedItems(tallies);
    assert r == Items(keys, agg);
    forall i | 0 <= i < |r|
      ensures exists t :: t in tallies && t.timestamp == r[i].0
      ensures r[i].1 == SumAt(tallies, r[i].0)
    {
      assert keys[i] in TimestampsOf(tallies);
    }
    forall t | t in tallies
      ensures exists i :: 0 <= i < |r| && r[i].0 == t.timestamp
    {
      assert t.timestamp in TimestampsOf(tallies);
      assert t.timestamp in keys;
      var i :| 0 <= i < |keys| && keys[i] == t.timestamp;
      assert r[i].0 == t.timestamp;
    }
  }

  /** `combine_json` for the chosen window test. */
  function Combined(files: seq<TagFile>, asWritten: bool): (r: seq<(string, int)>)
    ensures forall i, j :: 0 <= i < j < |r| ==> Less(r[i].0, r[j].0)
  {
    SummedItems(Keep(AllTallies(files), CommonWindow(files), asWritten))
  }

  /** `combine_json` with the window test applied whenever a bound exists. */
  function CombineJson(files: seq<TagFile>): (r: seq<(string, int)>)
    ensures forall i, j :: 0 <= i < j < |r| ==> Less(r[i].0, r[j].0)
  {
    Combined(files, false)
  }

  /** `combine_json` as written, with the truthiness guards. */
  function CombineJsonAsWritten(files: seq<TagFile>): (r: seq<(string, int)>)
    ensures forall i, j :: 0 <= i < j < |r| ==> Less(r[i].0, r[j].0)
  {
    Combined(files, true)
  }

  lemma SumAtSnoc(tallies: seq<Tally>, t: Tally, k: string)
    ensures SumAt(tallies + [t], k) == SumAt(tallies, k) + if t.timestamp == k then t.count else 0
  {
    assert (tallies + [t])[..|tallies|] == tallies;
  }

  /** Filtering by the window keeps every pair of a timestamp that passes. */
  lemma {:induction false} SumAtKeep(tallies: seq<Tally>, w: Window, asWritten: bool, k: string)
    requires Passes(w, asWritten, k)
    ensures SumAt(Keep(tallies, w, asWritten), k) == SumAt(tallies, k)
  {
    if |tallies| > 0 {
      var init := tallies[..|tallies| - 1];
      var t := tallies[|tallies| - 1];
      assert tallies == init + [t];
      SumAtKeep(init, w, asWritten, k);
      SumAtSnoc(init, t, k);
      var kept := Keep(init, w, asWritten);
      if Passes(w, asWritten, t.timestamp) {
        assert Keep(tallies, w, asWritten) == kept + [t];
        SumAtSnoc(kept, t, k);
      } else {
        assert Keep(tallies, w, asWritten) == kept;
        assert t.timestamp != k;
      }
    }
  }

  /** An output item passes the window test and carries the sum of all the
      counts its timestamp has in `all`. */
  predicate Reported(item: (string, int), all: seq<Tally>, w: Window, asWritten: bool) {
    && Passes(w, asWritten, item.0)
    && (exists t :: t in all && t.timestamp == item.0)
    && item.1 == SumAt(all, item.0)
  }

  /** Every passing timestamp of `all` is a key of `r`. */
  predicate Covers(r: seq<(string, int)>, all: seq<Tally>, w: Window, asWritten: bool) {
    forall t :: t in all && Passes(w, asWritten, t.timestamp) ==>
      exists i :: 0 <= i < |r| && r[i].0 == t.timestamp
  }

  /** Summing the pairs that pass the window test keeps exactly the
      passing timestamps, each with the sum of all of its pairs. */
  lemma KeptContents(all: seq<Tally>, w: Window, asWritten: bool)
    ensures forall i :: 0 <= i < |SummedItems(Keep(all, w, asWritten))| ==>
      Reported(SummedItems(Keep(all, w, asWritten))[i], all, w, asWritten)
    ensures Covers(SummedItems(Keep(all, w, asWritten)), all, w, asWritten)
  {
    var kept := Keep(all, w, asWritten);
    var r := SummedItems(kept);
    SummedItemsContents(kept);
    forall i | 0 <= i < |r|
      ensures Reported(r[i], all, w, asWritten)
    {
      var t :| t in kept && t.timestamp == r[i].0;
      SumAtKeep(all, w, asWritten, r[i].0);
    }
    forall t | t in all && Passes(w, asWritten, t.timestamp)
      ensures exists i :: 0 <= i < |r| && r[i].0 == t.timestamp
    {
      assert t in kept;
    }
  }

  /** What the combined output holds: exactly the timestamps of the existing
      files that pass the window test, each with the sum of its counts over
      all files. */
  lemma CombinedContents(files: seq<TagFile>, asWritten: bool)
    ensures forall i :: 0 <= i < |Combined(files, asWritten)| ==>
      Reported(Combined(files, asWritten)[i], AllTallies(files), CommonWindow(files), asWritten)
    ensures Covers(Combined(files, asWritten), AllTallies(files), CommonWindow(files), asWritten)
  {
    KeptContents(AllTallies(files), CommonWindow(files), asWritten);
  }

  /** Each output count is the sum, over the existing files, of that file's
      counts for the timestamp. */
  lemma CombineJsonFileSums(files: seq<TagFile>)
    ensures forall i :: 0 <= i < |CombineJson(files)| ==>
      CombineJson(files)[i].1 == FileSum(files, CombineJson(files)[i].0)
  {
    CombineJsonContents(files);
    forall i | 0 <= i < |CombineJson(files)|
      ensures CombineJson(files)[i].1 == FileSum(files, CombineJson(files)[i].0)
    {
      AllTalliesSum(files, CombineJson(files)[i].0);
    }
  }

  /** `combine_json`: the output is sorted by timestamp and holds exactly
      the timestamps inside the common window, each with its summed count. */
  lemma CombineJsonContents(files: seq<TagFile>)
    ensures forall i :: 0 <= i < |CombineJson(files)| ==>
      var k := CombineJson(files)[i].0;
      && InWindow(CommonWindow(files), k)
      && (exists t :: t in AllTallies(files) && t.timestamp == k)
      && CombineJson(files)[i].1 == SumAt(AllTallies(files), k)
    ensures forall t :: t in AllTallies(files) && InWindow(CommonWindow(files), t.timestamp) ==>
      exists i :: 0 <= i < |CombineJson(files)| && CombineJson(files)[i].0 == t.timestamp
  {
    CombinedContents(files, false);
    assert CombineJson(files) == Combined(files, false);
    assert forall k :: Passes(CommonWindow(files), false, k) == InWindow(CommonWindow(files), k);
  }

  /** No output timestamp lies before the latest start or after the earliest
      end. */
  lemma CombineJsonWithinWindow(files: seq<TagFile>)
    ensures forall i :: 0 <= i < |CombineJson(files)| ==>
      var k := CombineJson(files)[i].0;
      && (CommonWindow(files).latestStart.Some? ==> LessEq(CommonWindow(files).latestStart.value, k))
      && (CommonWindow(files).earliestEnd.Some? ==> LessEq(k, CommonWindow(files).earliestEnd.value))
  {
    CombinedContents(files, false);
    var w := CommonWindow(files);
    forall i | 0 <= i < |CombineJson(files)|
      ensures w.latestStart.Some? ==> LessEq(w.latestStart.value, CombineJson(files)[i].0)
      ensures w.earliestEnd.Some? ==> LessEq(CombineJson(files)[i].0, w.earliestEnd.value)
    {
      var k := CombineJson(files)[i].0;
      if w.latestStart.Some? { Trichotomy(k, w.latestStart.value); }
      if w.earliestEnd.Some? { Trichotomy(k, w.earliestEnd.value); }
    }
  }

  lemma {:induction false} KeepAgrees(tallies: seq<Tally>, w: Window)
    requires forall t :: t in tallies ==> (InWindowAsWritten(w, t.timestamp) <==> InWindow(w, t.timestamp))
    ensures Keep(tallies, w, true) == Keep(tallies, w, false)
  {
    if |tallies| > 0 {
      var init := tallies[..|tallies| - 1];
      assert forall t :: t in init ==> t in tallies;
      KeepAgrees(init, w);
      assert tallies[|tallies| - 1] in tallies;
    }
  }

  /** The truthiness guards only misbehave on an empty-string timestamp:
      without one, the as-written and the corrected combiner agree. */
  lemma AsWrittenAgreesWithoutEmptyKeys(files: seq<TagFile>)
    requires forall t :: t in AllTallies(files) ==> t.timestamp != ""
    ensures CombineJsonAsWritten(files) == CombineJson(files)
  {
    var w := CommonWindow(files);
    LatestStartBound(files);
    EarliestEndBound(files);
    assert w.latestStart.Some? ==> Truthy(w.latestStart) by {
      if w.latestStart.Some? {
        var f: TagFile :| f in files && Useful(f) && w.latestStart.value == FirstKey(f.value);
        var i :| 0 <= i < |f.value| && f.value[i].timestamp == w.latestStart.value;
        assert f.value[i] in AllTallies(files);
      }
    }
    assert w.earliestEnd.Some? ==> Truthy(w.earliestEnd) by {
      if w.earliestEnd.Some? {
        var f: TagFile :| f in files && Useful(f) && w.earliestEnd.value == LastKey(f.value);
        var i :| 0 <= i < |f.value| && f.value[i].timestamp == w.earliestEnd.value;
        assert f.value[i] in AllTallies(files);
      }
    }
    KeepAgrees(AllTallies(files), w);
  }

  /** Two tags, one whose only timestamp is the empty string. */
  const Example: seq<TagFile> := [Some([Tally("", 1)]), Some([Tally("a", 2)])]

  lemma ExampleWindow()
    ensures AllTallies(Example) == [Tally("", 1), Tally("a", 2)]
    ensures CommonWindow(Example) == Window(Some("a"), Some(""))
  {
    assert Less("", "a");
    assert Example[..1] == [Some([Tally("", 1)])];
    assert Starts(Example) == ["", "a"];
    assert Ends(Example) == ["", "a"];
  }

  /** When no pair passes the window test the output is empty. */
  lemma NothingPasses(files: seq<TagFile>, asWritten: bool)
    requires forall t :: t in AllTallies(files) ==> !Passes(CommonWindow(files), asWritten, t.timestamp)
    ensures Combined(files, asWritten) == []
  {
    KeepNone(AllTallies(files), CommonWindow(files), asWritten);
  }

  lemma {:induction false} KeepNone(tallies: seq<Tally>, w: Window, asWritten: bool)
    requires forall t :: t in tallies ==> !Passes(w, asWritten, t.timestamp)
    ensures Keep(tallies, w, asWritten) == []
  {
    if |tallies| > 0 {
      var init := tallies[..|tallies| - 1];
      assert forall t :: t in init ==> t in tallies;
      assert tallies[|tallies| - 1] in tallies;
      KeepNone(init, w, asWritten);
    }
  }

  /** The timestamp at position `i`, or "" past the end. Being total, it
      lets a proof name the second output key before it knows the output
      has two entries, without an index that could be out of range. */
  function KeyAt(r: seq<(string, int)>, i: nat): string {
    if i < |r| then r[i].0 else ""
  }

  lemma ExampleSums()
    ensures SumAt(AllTallies(Example), "a") == 2
  {
    ExampleWindow();
    var all := AllTallies(Example);
    assert all[..1] == [Tally("", 1)];
    assert all[..1][..0] == [];
  }

  /** The as-written combiner keeps "a" on `Example`. */
  lemma ExampleAsWritten()
    ensures CombineJsonAsWritten(Example) == [("a", 2)]
  {
    ExampleWindow();
    ExampleSums();
    var all := AllTallies(Example);
    var w := CommonWindow(Example);
    assert Less("", "a");
    CombinedContents(Example, true);
    assert Tally("a", 2) in all;
    assert Passes(w, true, "a");
    var r := CombineJsonAsWritten(Example);
    assert r == Combined(Example, true);
    assert !Passes(w, true, "");
    forall i | 0 <= i < |r| ensures r[i] == ("a", 2) {
      assert Reported(r[i], all, w, true);
      var t :| t in all && t.timestamp == r[i].0;
      assert t == Tally("", 1) || t == Tally("a", 2);
    }
    assert Covers(r, all, w, true);
    assert |r| > 0;
    var first, second := KeyAt(r, 0), KeyAt(r, 1);
    assert |r| >= 2 ==> Less(first, second);
    assert !Less("a", "a");
  }

  /** The corrected combiner keeps nothing on `Example`. */
  lemma ExampleCorrected()
    ensures CombineJson(Example) == []
  {
    ExampleWindow();
    var all := AllTallies(Example);
    var w := CommonWindow(Example);
    assert Less("", "a");
    forall t | t in all ensures !Passes(w, false, t.timestamp) {
      assert t == Tally("", 1) || t == Tally("a", 2);
    }
    NothingPasses(Example, false);
  }

  /** On `Example` the window runs from "a" to "", so nothing should
      survive, but the as-written guard skips the empty upper bound and
      keeps "a" with its count. */
  lemma AsWrittenEscapesWindow()
    ensures CommonWindow(Example) == Window(Some("a"), Some(""))
    ensures !InWindow(CommonWindow(Example), "a")
    ensures CombineJsonAsWritten(Example) == [("a", 2)]
    ensures CombineJson(Example) == []
  {
    ExampleWindow();
    assert Less("", "a");
    ExampleAsWritten();
    ExampleCorrected();
  }
}
