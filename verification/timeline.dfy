/** The timeline unifier of the dashboard page (src/pages/Index.tsx): two
    sparse `timestamp -> count` series, Instagram and WeChat, are laid out on
    one sorted timeline, each point carrying each series' count or an explicit
    absence marker. */
module Timeline {
  import opened Wrappers
  import opened Lex

  /** One `[timestamp, count]` pair of a loaded count object. */
  datatype Sample = Sample(timestamp: string, count: int)

  /** A loaded series, in the order `Object.entries` lists it. */
  type Series = seq<Sample>

  /** The two charted series. */
  datatype Platform = Instagram | WeChat

  /** One point of the combined timeline: `None` is the source's `null`,
      "this series has no sample here", which is never the count 0. */
  datatype Point = Point(time: string, timestamp: string, instagram: Option<int>, wechat: Option<int>)

  function Value(p: Point, s: Platform): Option<int> {
    match s
    case Instagram => p.instagram
    case WeChat => p.wechat
  }

  /** `timestamp.slice(11)`: the suffix after the date part, empty when the
      string is shorter than that. */
  function TimeOf(timestamp: string): (t: string)
    ensures |t| == if |timestamp| < 11 then 0 else |timestamp| - 11
    ensures timestamp == timestamp[..|timestamp| - |t|] + t
  {
    if |timestamp| < 11 then "" else timestamp[11..]
  }

  ghost predicate HasKey(s: Series, t: string) {
    exists i :: 0 <= i < |s| && s[i].timestamp == t
  }

  /** A loaded JSON object cannot repeat a key. */
  ghost predicate DistinctKeys(s: Series) {
    forall i, j :: 0 <= i < j < |s| ==> s[i].timestamp != s[j].timestamp
  }

  function Timestamps(s: Series): (ts: seq<string>)
    ensures |ts| == |s|
    ensures forall i :: 0 <= i < |s| ==> ts[i] == s[i].timestamp
  {
    seq(|s|, i requires 0 <= i < |s| => s[i].timestamp)
  }

  /** `data.find(item => item.timestamp === t)`, projected to its count. */
  function Lookup(s: Series, t: string): (r: Option<int>)
    ensures r.Some? <==> HasKey(s, t)
    ensures r.Some? ==> exists i :: 0 <= i < |s| && s[i] == Sample(t, r.value)
  {
    if |s| == 0 then None
    else if s[0].timestamp == t then Some(s[0].count)
    else
      var r := Lookup(s[1..], t);
      assert HasKey(s, t) ==> HasKey(s[1..], t) by {
        if HasKey(s, t) {
          var i :| 0 <= i < |s| && s[i].timestamp == t;
          assert s[1..][i - 1].timestamp == t;
        }
      }
      assert r.Some? ==> s[1..][0].timestamp == s[1].timestamp;
      r
  }

  /** With no repeated key, the lookup of a timestamp is the map reading:
      a count is present exactly when an entry carries it. */
  lemma {:induction false} LookupIsMapRead(s: Series, t: string, v: int)
    requires DistinctKeys(s)
    ensures Lookup(s, t) == Some(v) <==> Sample(t, v) in s
  {
    if |s| > 0 {
      if s[0].timestamp != t {
        LookupIsMapRead(s[1..], t, v);
        assert s == [s[0]] + s[1..];
      } else {
        if Sample(t, v) in s {
          var k :| 0 <= k < |s| && s[k] == Sample(t, v);
          assert k == 0;
        }
      }
    }
  }

  /** `[...new Set([...insta, ...wechat timestamps])].sort()`. */
  function AllTimestamps(insta: Series, wechat: Series): (r: seq<string>)
    ensures StrictlySorted(r)
    ensures forall t :: t in r <==> HasKey(insta, t) || HasKey(wechat, t)
  {
    var all := Timestamps(insta) + Timestamps(wechat);
    assert forall t :: t in all <==> HasKey(insta, t) || HasKey(wechat, t) by {
      forall t
        ensures t in all <==> HasKey(insta, t) || HasKey(wechat, t)
      {
        if HasKey(insta, t) {
          var i :| 0 <= i < |insta| && insta[i].timestamp == t;
          assert all[i] == t;
        }
        if HasKey(wechat, t) {
          var i :| 0 <= i < |wechat| && wechat[i].timestamp == t;
          assert all[|insta| + i] == t;
        }
      }
    }
    SortedDistinct(all)
  }

  /** The set of keys of a series. */
  ghost function Keys(s: Series): set<string> {
    set i | 0 <= i < |s| :: s[i].timestamp
  }

  /** The combined data: one point per timestamp of the union, in order. */
  function Combine(insta: Series, wechat: Series): (r: seq<Point>)
    ensures forall i, j :: 0 <= i < j < |r| ==> Less(r[i].timestamp, r[j].timestamp)
    ensures forall t :: (exists i :: 0 <= i < |r| && r[i].timestamp == t) <==> HasKey(insta, t) || HasKey(wechat, t)
    ensures forall i :: 0 <= i < |r| ==> r[i].time == TimeOf(r[i].timestamp)
    ensures forall i :: 0 <= i < |r| ==> (r[i].instagram.Some? <==> HasKey(insta, r[i].timestamp))
    ensures forall i :: 0 <= i < |r| ==> (r[i].wechat.Some? <==> HasKey(wechat, r[i].timestamp))
  {
    var ts := AllTimestamps(insta, wechat);
    var r := seq(|ts|, i requires 0 <= i < |ts| =>
      Point(TimeOf(ts[i]), ts[i], Lookup(insta, ts[i]), Lookup(wechat, ts[i])));
    assert forall t :: (exists i :: 0 <= i < |r| && r[i].timestamp == t) <==> t in ts by {
      forall t | t in ts
        ensures exists i :: 0 <= i < |r| && r[i].timestamp == t
      {
        var i :| 0 <= i < |ts| && ts[i] == t;
        assert r[i].timestamp == t;
      }
    }
    r
  }

  /** Union completeness: the timeline has one point per distinct timestamp
      of either series, so its length is the size of the union of the keys. */
  lemma CombineLength(insta: Series, wechat: Series)
    ensures |Combine(insta, wechat)| == |Keys(insta) + Keys(wechat)|
  {
    var ts := AllTimestamps(insta, wechat);
    assert |Combine(insta, wechat)| == |ts|;
    DistinctLength(ts);
    assert (set t | t in ts) == Keys(insta) + Keys(wechat) by {
      forall t
        ensures t in ts <==> t in Keys(insta) + Keys(wechat)
      {
        if t in Keys(insta) {
          var i :| 0 <= i < |insta| && insta[i].timestamp == t;
          assert HasKey(insta, t);
        }
        if t in Keys(wechat) {
          var i :| 0 <= i < |wechat| && wechat[i].timestamp == t;
          assert HasKey(wechat, t);
        }
      }
    }
  }

  /** A duplicate-free list has as many elements as its set of elements. */
  lemma {:induction false} DistinctLength(s: seq<string>)
    requires StrictlySorted(s)
    ensures |set t | t in s| == |s|
  {
    if |s| > 0 {
      DistinctLength(s[1..]);
      assert (set t | t in s) == {s[0]} + (set t | t in s[1..]);
      Irreflexive(s[0]);
      assert s[0] !in s[1..];
    }
  }

  /** Per series, a point holds `Some(v)` exactly when the loaded object maps
      its timestamp to `v`; otherwise it holds the absence marker. */
  lemma CombineValues(insta: Series, wechat: Series, i: nat, v: int)
    requires DistinctKeys(insta) && DistinctKeys(wechat)
    requires i < |Combine(insta, wechat)|
    ensures Combine(insta, wechat)[i].instagram == Some(v) <==> Sample(Combine(insta, wechat)[i].timestamp, v) in insta
    ensures Combine(insta, wechat)[i].wechat == Some(v) <==> Sample(Combine(insta, wechat)[i].timestamp, v) in wechat
  {
    var t := Combine(insta, wechat)[i].timestamp;
    LookupIsMapRead(insta, t, v);
    LookupIsMapRead(wechat, t, v);
  }
}
