/** The CSV half of the tag combiner (`combine_csv` in
    src/backend/Combine.py): several `shortCode -> timestamp` scrapes, one per
    hashtag, merged into one row per post carrying every hashtag that found
    it, then written (or appended, minus the posts already on file) in
    timestamp order. */
module TagMerge {
  import opened Wrappers
  import opened Lex
  import Seqs

  datatype Post = Post(shortCode: string, timestamp: string)

  /** One hashtag's scrape: the tag and its `shortCode -> timestamp` dict in
      insertion order. */
  datatype Dataset = Dataset(tag: string, posts: seq<Post>)

  /** A row of the collective CSV: `(shortCode, hashtags, timestamp)`. */
  datatype Entry = Entry(shortCode: string, hashtags: string, timestamp: string)

  /** One step of the nested merge loop: a post met while processing a tag. */
  datatype Visit = Visit(tag: string, shortCode: string, timestamp: string)

  /** The visits made while processing one tag, in dict order. */
  function OwnVisits(d: Dataset): (vs: seq<Visit>)
    ensures |vs| == |d.posts|
    ensures forall i :: 0 <= i < |vs| ==> vs[i] == Visit(d.tag, d.posts[i].shortCode, d.posts[i].timestamp)
  {
    seq(|d.posts|, i requires 0 <= i < |d.posts| => Visit(d.tag, d.posts[i].shortCode, d.posts[i].timestamp))
  }

  /** The steps of `for tag, mapping in datasets: for sc, ts in
      mapping.items()`, in order. */
  function Visits(ds: seq<Dataset>): seq<Visit> {
    if |ds| == 0 then [] else Visits(ds[..|ds| - 1]) + OwnVisits(ds[|ds| - 1])
  }

  /** The loop meets exactly the posts of the tag dicts, each under its
      own tag. */
  lemma {:induction false} VisitOrigin(ds: seq<Dataset>, v: Visit)
    ensures v in Visits(ds) <==> exists d :: d in ds && v.tag == d.tag && Post(v.shortCode, v.timestamp) in d.posts
  {
    if |ds| > 0 {
      var init := ds[..|ds| - 1];
      var last := ds[|ds| - 1];
      VisitOrigin(init, v);
      assert ds == init + [last];
      var own := OwnVisits(last);
      assert v in own <==> last.tag == v.tag && Post(v.shortCode, v.timestamp) in last.posts by {
        if v in own {
          var i :| 0 <= i < |own| && own[i] == v;
          assert last.posts[i] == Post(v.shortCode, v.timestamp);
        }
        if last.tag == v.tag && Post(v.shortCode, v.timestamp) in last.posts {
          var i :| 0 <= i < |last.posts| && last.posts[i] == Post(v.shortCode, v.timestamp);
          assert own[i] == v;
        }
      }
    }
  }

  /** A Python dict never repeats a key. */
  ghost predicate DistinctPosts(d: Dataset) {
    forall i, j :: 0 <= i < j < |d.posts| ==> d.posts[i].shortCode != d.posts[j].shortCode
  }

  /** `mapping.get(c)`: the timestamp a tag's dict gives short code `c`. */
  function PostTimestamp(posts: seq<Post>, c: string): (r: Option<string>)
    ensures r.Some? <==> exists i :: 0 <= i < |posts| && posts[i].shortCode == c
    ensures r.Some? ==> Post(c, r.value) in posts
  {
    if |posts| == 0 then None
    else
      var init := posts[..|posts| - 1];
      assert posts == init + [posts[|posts| - 1]];
      if posts[|posts| - 1].shortCode == c then Some(posts[|posts| - 1].timestamp)
      else
        var r := PostTimestamp(init, c);
        assert forall i :: 0 <= i < |init| ==> init[i] == posts[i];
        r
  }

  /** The tags, in processing order, whose dict holds short code `c`. */
  function DatasetTags(ds: seq<Dataset>, c: string): seq<string> {
    if |ds| == 0 then []
    else
      var d := ds[|ds| - 1];
      DatasetTags(ds[..|ds| - 1], c) + if PostTimestamp(d.posts, c).Some? then [d.tag] else []
  }

  /** The timestamp given to `c` by the last dict, in processing order, that
      holds it. */
  function DatasetTimestamp(ds: seq<Dataset>, c: string): Option<string> {
    if |ds| == 0 then None
    else
      match PostTimestamp(ds[|ds| - 1].posts, c)
      case Some(t) => Some(t)
      case None => DatasetTimestamp(ds[..|ds| - 1], c)
  }

  function Codes(full: seq<Entry>): (cs: seq<string>)
    ensures |cs| == |full| && forall i :: 0 <= i < |full| ==> cs[i] == full[i].shortCode
  {
    seq(|full|, i requires 0 <= i < |full| => full[i].shortCode)
  }

  /** Every short code occurs at most once: `full_ds` is a dict. */
  ghost predicate DistinctCodes(full: seq<Entry>) {
    forall i, j :: 0 <= i < j < |full| ==> full[i].shortCode != full[j].shortCode
  }

  /** The entry for short code `c`, if any. */
  function Find(full: seq<Entry>, c: string): (r: Option<Entry>)
    ensures r.Some? <==> c in Codes(full)
    ensures r.Some? ==> r.value in full && r.value.shortCode == c
  {
    if |full| == 0 then None
    else if full[0].shortCode == c then Some(full[0])
    else
      assert Codes(full) == [full[0].shortCode] + Codes(full[1..]);
      Find(full[1..], c)
  }

  /** One step of the merge loop: the post's entry gets `",tag"` appended to
      its tags and the new timestamp, or is added at the end. */
  function Upsert(full: seq<Entry>, v: Visit): (r: seq<Entry>)
    ensures Codes(r) == if v.shortCode in Codes(full) then Codes(full) else Codes(full) + [v.shortCode]
  {
    if |full| == 0 then [Entry(v.shortCode, v.tag, v.timestamp)]
    else if full[0].shortCode == v.shortCode then
      [Entry(v.shortCode, full[0].hashtags + "," + v.tag, v.timestamp)] + full[1..]
    else
      [full[0]] + Upsert(full[1..], v)
  }

  lemma UpsertKeepsDistinct(full: seq<Entry>, v: Visit)
    requires DistinctCodes(full)
    ensures DistinctCodes(Upsert(full, v))
  {
    var r := Upsert(full, v);
    forall i, j | 0 <= i < j < |r| ensures r[i].shortCode != r[j].shortCode {
      assert Codes(r)[i] == r[i].shortCode && Codes(r)[j] == r[j].shortCode;
      assert |full| == 0 || Codes(full)[i] == full[i].shortCode;
    }
  }

  /** Other short codes are untouched; the visited one is created with the
      tag alone, or has `",tag"` appended and its timestamp replaced. */
  lemma {:induction false} UpsertFind(full: seq<Entry>, v: Visit, c: string)
    ensures c != v.shortCode ==> Find(Upsert(full, v), c) == Find(full, c)
    ensures c == v.shortCode ==> Find(Upsert(full, v), c) == Some(match Find(full, c)
                                         case None => Entry(c, v.tag, v.timestamp)
                                         case Some(e) => Entry(c, e.hashtags + "," + v.tag, v.timestamp))
  {
    if |full| > 0 && full[0].shortCode != v.shortCode {
      UpsertFind(full[1..], v, c);
    }
  }

  /** `full_ds` after the merge loop, in dict insertion order. */
  function MergeVisits(vs: seq<Visit>): (r: seq<Entry>)
    ensures DistinctCodes(r)
  {
    if |vs| == 0 then []
    else
      var prev := MergeVisits(vs[..|vs| - 1]);
      UpsertKeepsDistinct(prev, vs[|vs| - 1]);
      Upsert(prev, vs[|vs| - 1])
  }

  /** `full_ds` after merging every tag's dict: one entry per short code. */
  function Merge(ds: seq<Dataset>): (r: seq<Entry>)
    ensures DistinctCodes(r)
  {
    MergeVisits(Visits(ds))
  }

  /** The tags, in processing order, under which short code `c` was met. */
  function TagsOf(vs: seq<Visit>, c: string): (tags: seq<string>)
    ensures |tags| == 0 <==> forall v :: v in vs ==> v.shortCode != c
  {
    if |vs| == 0 then []
    else
      var init := vs[..|vs| - 1];
      assert vs == init + [vs[|vs| - 1]];
      TagsOf(init, c) + if vs[|vs| - 1].shortCode == c then [vs[|vs| - 1].tag] else []
  }

  /** The timestamp of the last visit of short code `c`, if it was met. */
  function LastTimestamp(vs: seq<Visit>, c: string): (r: Option<string>)
    ensures r.Some? <==> TagsOf(vs, c) != []
  {
    if |vs| == 0 then None
    else
      var last := vs[|vs| - 1];
      var init := vs[..|vs| - 1];
      assert vs == init + [last];
      if last.shortCode == c then Some(last.timestamp) else LastTimestamp(init, c)
  }

  /** The kept timestamp is that of a visit of `c` after which `c` is not
      met again. */
  lemma {:induction false} LastTimestampIsLastVisit(vs: seq<Visit>, c: string)
    requires LastTimestamp(vs, c).Some?
    ensures exists i :: (0 <= i < |vs| && vs[i].shortCode == c && vs[i].timestamp == LastTimestamp(vs, c).value
                         && forall j :: i < j < |vs| ==> vs[j].shortCode != c)
  {
    var last := vs[|vs| - 1];
    var init := vs[..|vs| - 1];
    if last.shortCode == c {
      assert vs[|vs| - 1].timestamp == LastTimestamp(vs, c).value;
    } else {
      assert LastTimestamp(vs, c) == LastTimestamp(init, c);
      LastTimestampIsLastVisit(init, c);
      var i :| 0 <= i < |init| && init[i].shortCode == c && init[i].timestamp == LastTimestamp(init, c).value
               && forall j :: i < j < |init| ==> init[j].shortCode != c;
      assert vs[i] == init[i];
      assert forall j :: i < j < |vs| ==> vs[j].shortCode != c by {
        forall j | i < j < |vs| ensures vs[j].shortCode != c {
          if j < |init| { assert vs[j] == init[j]; }
        }
      }
    }
  }

  /** `",".join(tags)`, built as the loop builds it: `f"{prev},{tag}"`. */
  function Join(tags: seq<string>): string
    requires |tags| > 0
  {
    if |tags| == 1 then tags[0] else Join(tags[..|tags| - 1]) + "," + tags[|tags| - 1]
  }

  /** The joined text starts with the first tag, followed by a comma when
      there are more, and ends with the last tag. */
  lemma {:induction false} JoinEnds(tags: seq<string>)
    requires |tags| > 0
    ensures tags[0] <= Join(tags)
    ensures var r, t := Join(tags), tags[|tags| - 1]; |t| <= |r| && r[|r| - |t|..] == t
    ensures |tags| > 1 ==> |Join(tags)| > |tags[0]| && Join(tags)[|tags[0]|] == ','
  {
    if |tags| > 1 {
      var init := tags[..|tags| - 1];
      JoinEnds(init);
      var prev := Join(init);
      var r := Join(tags);
      assert r == prev + "," + tags[|tags| - 1];
      assert init[0] == tags[0];
      assert r[..|prev|] == prev;
      if |tags| > 2 {
        assert prev[|tags[0]|] == ',';
      }
    }
  }

  /** One visit more: the merge after `vs` is one `Upsert` of the merge
      after all but its last visit, so the entry of `c` follows from the
      shorter run's. */
  lemma MergeEntryStep(vs: seq<Visit>, c: string)
    requires |vs| > 0
    requires var init := vs[..|vs| - 1];
      && (Find(MergeVisits(init), c).None? <==> TagsOf(init, c) == [])
      && (TagsOf(init, c) != [] ==>
            Find(MergeVisits(init), c) == Some(Entry(c, Join(TagsOf(init, c)), LastTimestamp(init, c).value)))
    ensures Find(MergeVisits(vs), c).None? <==> TagsOf(vs, c) == []
    ensures TagsOf(vs, c) != [] ==>
      Find(MergeVisits(vs), c) == Some(Entry(c, Join(TagsOf(vs, c)), LastTimestamp(vs, c).value))
  {
    var init := vs[..|vs| - 1];
    var v := vs[|vs| - 1];
    UpsertFind(MergeVisits(init), v, c);
    assert MergeVisits(vs) == Upsert(MergeVisits(init), v);
    var tags := TagsOf(vs, c);
    if v.shortCode == c {
      assert tags == TagsOf(init, c) + [v.tag];
      assert LastTimestamp(vs, c) == Some(v.timestamp);
      if TagsOf(init, c) != [] {
        assert tags[..|tags| - 1] == TagsOf(init, c);
        assert Join(tags) == Join(TagsOf(init, c)) + "," + v.tag;
      }
    } else {
      assert tags == TagsOf(init, c);
      assert LastTimestamp(vs, c) == LastTimestamp(init, c);
    }
  }

  /** After the merge each short code met has exactly one entry, carrying
      the comma-join of the tags that met it, in processing order, and the
      timestamp from the last of them. */
  lemma {:induction false} MergeEntry(vs: seq<Visit>, c: string)
    ensures Find(MergeVisits(vs), c).None? <==> TagsOf(vs, c) == []
    ensures TagsOf(vs, c) != [] ==>
      Find(MergeVisits(vs), c) == Some(Entry(c, Join(TagsOf(vs, c)), LastTimestamp(vs, c).value))
  {
    if |vs| > 0 {
      MergeEntry(vs[..|vs| - 1], c);
      MergeEntryStep(vs, c);
    }
  }

  /** Entries keep the order in which their short codes were first met. */
  function FirstSeen(cs: seq<string>): (r: seq<string>)
    ensures forall c :: c in r <==> c in cs
  {
    if |cs| == 0 then []
    else
      var init := cs[..|cs| - 1];
      assert cs == init + [cs[|cs| - 1]];
      if cs[|cs| - 1] in init then FirstSeen(init) else FirstSeen(init) + [cs[|cs| - 1]]
  }

  function VisitCodes(vs: seq<Visit>): (cs: seq<string>)
    ensures |cs| == |vs| && forall i :: 0 <= i < |vs| ==> cs[i] == vs[i].shortCode
  {
    seq(|vs|, i requires 0 <= i < |vs| => vs[i].shortCode)
  }

  /** The merged entries are listed in the order their short codes were
      first met, one entry per short code. */
  lemma {:induction false} MergeOrder(vs: seq<Visit>)
    ensures Codes(MergeVisits(vs)) == FirstSeen(VisitCodes(vs))
  {
    if |vs| > 0 {
      var init := vs[..|vs| - 1];
      MergeOrder(init);
      assert VisitCodes(vs)[..|vs| - 1] == VisitCodes(init);
    }
  }

  lemma {:induction false} TagsOfAppend(a: seq<Visit>, b: seq<Visit>, c: string)
    ensures TagsOf(a + b, c) == TagsOf(a, c) + TagsOf(b, c)
  {
    if |b| == 0 {
      assert a + b == a;
    } else {
      var binit := b[..|b| - 1];
      TagsOfAppend(a, binit, c);
      assert (a + b)[..|a + b| - 1] == a + binit;
      assert (a + b)[|a + b| - 1] == b[|b| - 1];
    }
  }

  lemma {:induction false} LastTimestampAppend(a: seq<Visit>, b: seq<Visit>, c: string)
    ensures LastTimestamp(a + b, c) == if LastTimestamp(b, c).Some? then LastTimestamp(b, c) else LastTimestamp(a, c)
  {
    if |b| == 0 {
      assert a + b == a;
    } else {
      var binit := b[..|b| - 1];
      var last := b[|b| - 1];
      LastTimestampAppend(a, binit, c);
      assert (a + b)[..|a + b| - 1] == a + binit;
      assert (a + b)[|a + b| - 1] == last;
    }
  }

  /** In a dict the last key does not occur among the earlier ones. */
  lemma LastKeyFresh(d: Dataset)
    requires DistinctPosts(d) && |d.posts| > 0
    ensures PostTimestamp(d.posts[..|d.posts| - 1], d.posts[|d.posts| - 1].shortCode).None?
  {
    var init := d.posts[..|d.posts| - 1];
    assert forall i :: 0 <= i < |init| ==> init[i].shortCode != d.posts[|d.posts| - 1].shortCode by {
      forall i | 0 <= i < |init| ensures init[i].shortCode != d.posts[|d.posts| - 1].shortCode {
        assert init[i] == d.posts[i];
      }
    }
  }

  /** Within one tag's dict a short code is met at most once, so it
      contributes the tag once and the dict's timestamp. */
  lemma {:induction false} OwnVisitsOf(d: Dataset, c: string)
    requires DistinctPosts(d)
    ensures TagsOf(OwnVisits(d), c) == if PostTimestamp(d.posts, c).Some? then [d.tag] else []
    ensures LastTimestamp(OwnVisits(d), c) == PostTimestamp(d.posts, c)
    decreases |d.posts|
  {
    var own := OwnVisits(d);
    if |d.posts| > 0 {
      var init := Dataset(d.tag, d.posts[..|d.posts| - 1]);
      var p := d.posts[|d.posts| - 1];
      OwnVisitsOf(init, c);
      assert own[..|own| - 1] == OwnVisits(init);
      assert own[|own| - 1] == Visit(d.tag, p.shortCode, p.timestamp);
      if p.shortCode == c {
        LastKeyFresh(d);
        assert PostTimestamp(d.posts, c) == Some(p.timestamp);
        assert TagsOf(own, c) == TagsOf(OwnVisits(init), c) + [d.tag];
        assert LastTimestamp(own, c) == Some(p.timestamp);
      } else {
        assert PostTimestamp(d.posts, c) == PostTimestamp(init.posts, c);
        assert TagsOf(own, c) == TagsOf(OwnVisits(init), c);
        assert LastTimestamp(own, c) == LastTimestamp(OwnVisits(init), c);
      }
    }
  }

  /** With each tag's scrape a dict, the merge loop met short code `c` under
      exactly the tags whose dict holds it, in processing order, and last
      under the last of them. */
  lemma {:induction false} VisitsByDataset(ds: seq<Dataset>, c: string)
    requires forall d :: d in ds ==> DistinctPosts(d)
    ensures TagsOf(Visits(ds), c) == DatasetTags(ds, c)
    ensures LastTimestamp(Visits(ds), c) == DatasetTimestamp(ds, c)
  {
    if |ds| > 0 {
      var init := ds[..|ds| - 1];
      var d := ds[|ds| - 1];
      assert d in ds;
      assert forall e :: e in init ==> e in ds;
      VisitsByDataset(init, c);
      OwnVisitsOf(d, c);
      TagsOfAppend(Visits(init), OwnVisits(d), c);
      LastTimestampAppend(Visits(init), OwnVisits(d), c);
    }
  }

  /** The merged row of short code `c`, read off the tag dicts: present
      exactly when some dict holds `c`, with the tags of those dicts joined by
      commas and the timestamp of the last one. */
  lemma MergedRow(ds: seq<Dataset>, c: string)
    requires forall d :: d in ds ==> DistinctPosts(d)
    ensures Find(Merge(ds), c).None? <==> DatasetTags(ds, c) == []
    ensures DatasetTags(ds, c) != [] ==>
      (DatasetTimestamp(ds, c).Some? &&
       Find(Merge(ds), c) == Some(Entry(c, Join(DatasetTags(ds, c)), DatasetTimestamp(ds, c).value)))
  {
    VisitsByDataset(ds, c);
    MergeEntry(Visits(ds), c);
  }

  /** `[e for e in entries if e.shortCode not in existing]`. */
  function Unknown(entries: seq<Entry>, known: set<string>): (r: seq<Entry>)
    ensures |r| <= |entries|
    ensures forall e :: e in r <==> e in entries && e.shortCode !in known
    ensures forall e :: multiset(r)[e] == if e.shortCode in known then 0 else multiset(entries)[e]
  {
    if |entries| == 0 then []
    else
      var init := entries[..|entries| - 1];
      var e := entries[|entries| - 1];
      assert entries == init + [e];
      Unknown(init, known) + if e.shortCode in known then [] else [e]
  }

  /** The filter keeps the input order: filtering a concatenation filters
      each part in turn. */
  lemma {:induction false} UnknownAppend(a: seq<Entry>, b: seq<Entry>, known: set<string>)
    ensures Unknown(a + b, known) == Unknown(a, known) + Unknown(b, known)
  {
    if |b| == 0 {
      assert a + b == a;
    } else {
      var binit, last := b[..|b| - 1], b[|b| - 1];
      var tail := if last.shortCode in known then [] else [last];
      UnknownAppend(a, binit, known);
      UnknownSnoc(a + binit, last, known);
      UnknownSnoc(binit, last, known);
      Seqs.SplitLast(a, b);
      var ua, ub := Unknown(a, known), Unknown(binit, known);
      assert Unknown(a + b, known) == (ua + ub) + tail;
      assert Unknown(b, known) == ub + tail;
      Seqs.AppendAssoc(ua, ub, tail);
    }
  }

  lemma UnknownSnoc(s: seq<Entry>, e: Entry, known: set<string>)
    ensures Unknown(s + [e], known) == Unknown(s, known) + if e.shortCode in known then [] else [e]
  {
    assert (s + [e])[..|s|] == s;
  }

  /** Ascending by timestamp; equal timestamps are allowed. */
  ghost predicate SortedByTime(s: seq<Entry>) {
    forall i, j :: 0 <= i < j < |s| ==> LessEq(s[i].timestamp, s[j].timestamp)
  }

  /** An entry not below the last of a sorted run may follow it. */
  lemma AppendSorted(sorted: seq<Entry>, e: Entry)
    requires SortedByTime(sorted) && |sorted| > 0
    requires !Less(e.timestamp, sorted[|sorted| - 1].timestamp)
    ensures SortedByTime(sorted + [e])
  {
    var last := sorted[|sorted| - 1];
    Trichotomy(e.timestamp, last.timestamp);
    forall i | 0 <= i < |sorted| ensures LessEq(sorted[i].timestamp, e.timestamp) {
      LessEqTransitive(sorted[i].timestamp, last.timestamp, e.timestamp);
    }
  }

  /** The last entry of a sorted run may follow the sorted insertion of `e`
      into the rest, when `e` is below it. */
  lemma ReattachLast(init: seq<Entry>, last: Entry, rest: seq<Entry>, e: Entry)
    requires SortedByTime(init + [last]) && SortedByTime(rest)
    requires multiset(rest) == multiset(init) + multiset{e}
    requires Less(e.timestamp, last.timestamp)
    ensures SortedByTime(rest + [last])
  {
    var sorted := init + [last];
    forall x | x in rest ensures LessEq(x.timestamp, last.timestamp) {
      assert x in multiset(rest);
      assert x in init || x == e;
      if x in init {
        var i :| 0 <= i < |init| && init[i] == x;
        assert sorted[i] == x && sorted[|init|] == last;
      }
    }
  }

  /** Inserts `e` after every entry whose timestamp is not above its own. */
  function InsertByTime(sorted: seq<Entry>, e: Entry): (r: seq<Entry>)
    requires SortedByTime(sorted)
    ensures SortedByTime(r)
    ensures multiset(r) == multiset(sorted) + multiset{e}
  {
    if |sorted| == 0 then [e]
    else
      var init := sorted[..|sorted| - 1];
      var last := sorted[|sorted| - 1];
      assert sorted == init + [last];
      if !Less(e.timestamp, last.timestamp) then
        AppendSorted(sorted, e);
        sorted + [e]
      else
        var rest := InsertByTime(init, e);
        ReattachLast(init, last, rest, e);
        rest + [last]
  }

  /** `sorted(entries, key=lambda e: e[2])`: Python's stable sort on the
      timestamp. */
  function SortByTimestamp(s: seq<Entry>): (r: seq<Entry>)
    ensures SortedByTime(r)
    ensures multiset(r) == multiset(s)
  {
    if |s| == 0 then []
    else
      assert s == s[..|s| - 1] + [s[|s| - 1]];
      InsertByTime(SortByTimestamp(s[..|s| - 1]), s[|s| - 1])
  }

  /** The entries with timestamp `t`, in their order in `s`. */
  function WithTimestamp(s: seq<Entry>, t: string): seq<Entry> {
    if |s| == 0 then []
    else WithTimestamp(s[..|s| - 1], t) + if s[|s| - 1].timestamp == t then [s[|s| - 1]] else []
  }

  lemma WithTimestampSnoc(s: seq<Entry>, e: Entry, t: string)
    ensures WithTimestamp(s + [e], t) == WithTimestamp(s, t) + if e.timestamp == t then [e] else []
  {
    assert (s + [e])[..|s|] == s;
  }

  lemma {:induction false} InsertStable(sorted: seq<Entry>, e: Entry, t: string)
    requires SortedByTime(sorted)
    ensures WithTimestamp(InsertByTime(sorted, e), t) ==
            WithTimestamp(sorted, t) + if e.timestamp == t then [e] else []
  {
    if |sorted| > 0 {
      var init := sorted[..|sorted| - 1];
      var last := sorted[|sorted| - 1];
      var tail := if e.timestamp == t then [e] else [];
      var lastTail := if last.timestamp == t then [last] else [];
      Seqs.SplitLast([], sorted);
      WithTimestampSnoc(init, last, t);
      if !Less(e.timestamp, last.timestamp) {
        assert InsertByTime(sorted, e) == sorted + [e];
        WithTimestampSnoc(sorted, e, t);
      } else {
        InsertStable(init, e, t);
        var rest := InsertByTime(init, e);
        assert InsertByTime(sorted, e) == rest + [last];
        WithTimestampSnoc(rest, last, t);
        Irreflexive(e.timestamp);
        var wi := WithTimestamp(init, t);
        if tail == [] {
          Seqs.AppendEmpty(wi);
        } else {
          assert lastTail == [];
          Seqs.AppendEmpty(wi + tail);
          Seqs.AppendEmpty(wi);
        }
      }
    }
  }

  /** Entries with equal timestamps keep their relative order: the sort is
      stable. */
  lemma {:induction false} SortStable(s: seq<Entry>, t: string)
    ensures WithTimestamp(SortByTimestamp(s), t) == WithTimestamp(s, t)
  {
    if |s| > 0 {
      SortStable(s[..|s| - 1], t);
      InsertStable(SortByTimestamp(s[..|s| - 1]), s[|s| - 1], t);
    }
  }

  /** The header row of a new collective CSV. */
  const Header: seq<string> := ["shortCode", "hashtags", "timestamp"]

  /** What `combine_csv` does to the collective CSV. */
  datatype CsvWrite =
    | CreateFile(header: seq<string>, rows: seq<Entry>)
    | AppendRows(rows: seq<Entry>)
    | NoWrite

  /** `combine_csv`: `existing` is `None` when the collective CSV does not
      exist yet, and otherwise the set of short codes already in it. */
  function CombineCsv(ds: seq<Dataset>, existing: Option<set<string>>): (w: CsvWrite)
    ensures existing.None? ==>
      (w.CreateFile? && w.header == Header && SortedByTime(w.rows) && multiset(w.rows) == multiset(Merge(ds)))
    ensures existing.Some? ==> !w.CreateFile?
    ensures existing.Some? ==> (w.NoWrite? <==> forall e :: e in Merge(ds) ==> e.shortCode in existing.value)
    ensures w.AppendRows? ==>
      (existing.Some? && SortedByTime(w.rows)
       && multiset(w.rows) == multiset(Unknown(Merge(ds), existing.value))
       && forall e :: e in w.rows <==> e in Merge(ds) && e.shortCode !in existing.value)
  {
    var entries := Merge(ds);
    match existing
    case None => CreateFile(Header, SortByTimestamp(entries))
    case Some(known) =>
      var toAdd := Unknown(entries, known);
      assert |toAdd| > 0 ==> toAdd[0] in toAdd;
      if |toAdd| == 0 then NoWrite
      else
        var rows := SortByTimestamp(toAdd);
        assert forall e :: e in rows <==> e in toAdd by {
          forall e ensures e in rows <==> e in toAdd {
            assert e in rows <==> e in multiset(rows);
          }
        }
        AppendRows(rows)
  }

  /** The written rows keep, among equal timestamps, the order of `full_ds`
      (filtered by the short codes already on file when appending), since
      `sorted` is stable. */
  lemma CombineCsvOrder(ds: seq<Dataset>, existing: Option<set<string>>)
    ensures var w := CombineCsv(ds, existing);
      w.CreateFile? ==> forall t :: WithTimestamp(w.rows, t) == WithTimestamp(Merge(ds), t)
    ensures var w := CombineCsv(ds, existing);
      w.AppendRows? ==> forall t :: WithTimestamp(w.rows, t) == WithTimestamp(Unknown(Merge(ds), existing.value), t)
  {
    var entries := Merge(ds);
    var sorted := if existing.None? then entries else Unknown(entries, existing.value);
    forall t ensures WithTimestamp(SortByTimestamp(sorted), t) == WithTimestamp(sorted, t) {
      SortStable(sorted, t);
    }
  }
}
