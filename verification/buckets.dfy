/** Ten-minute bucketing of the analysis step (src/backend/DataAnalyzer.py):
    each row's timestamp is truncated to its ten-minute bucket by string
    slicing, and the rows are counted per bucket. */
module Buckets {
  import opened Wrappers
  import opened Lex
  import opened Seqs

  /** Python's `s[lo:hi]`, which clamps to the string instead of failing. */
  function Slice(s: string, lo: nat, hi: nat): (r: string)
    requires lo <= hi
    ensures |r| == (if |s| <= lo then 0 else if |s| <= hi then |s| - lo else hi - lo)
    ensures forall i :: 0 <= i < |r| ==> r[i] == s[lo + i]
  {
    if |s| <= lo then "" else if |s| <= hi then s[lo..] else s[lo..hi]
  }

  predicate IsDigit(c: char) {
    '0' <= c <= '9'
  }

  function DigitValue(c: char): (v: nat)
    requires IsDigit(c)
    ensures v <= 9
  {
    (c as int) - ('0' as int)
  }

  function DigitChar(v: nat): (c: char)
    requires v <= 9
    ensures IsDigit(c) && DigitValue(c) == v
  {
    (('0' as int) + v) as char
  }

  /** The whitespace Python's `int()` strips, restricted to ASCII. */
  predicate IsSpace(c: char) {
    c == ' ' || c == '\t' || c == '\n' || c == '\r' || c == '\U{000B}' || c == '\U{000C}'
    || ('\U{001C}' <= c <= '\U{001F}')
  }

  function TrimStart(s: string): (r: string)
    ensures |r| <= |s|
    ensures |r| > 0 ==> !IsSpace(r[0])
    ensures (forall i :: 0 <= i < |s| ==> !IsSpace(s[i])) ==> r == s
  {
    if |s| > 0 && IsSpace(s[0]) then TrimStart(s[1..]) else s
  }

  function TrimEnd(s: string): (r: string)
    ensures |r| <= |s|
    ensures (forall i :: 0 <= i < |s| ==> !IsSpace(s[i])) ==> r == s
  {
    if |s| > 0 && IsSpace(s[|s| - 1]) then TrimEnd(s[..|s| - 1]) else s
  }

  predicate AllDigits(s: string) {
    forall i :: 0 <= i < |s| ==> IsDigit(s[i])
  }

  /** The decimal value of a string of digits. */
  function DigitsValue(s: string): (v: nat)
    requires AllDigits(s)
  {
    if |s| == 0 then 0 else 10 * DigitsValue(s[..|s| - 1]) + DigitValue(s[|s| - 1])
  }

  /** Python's `int(s)` in base 10: surrounding whitespace, an optional sign
      and at least one digit; anything else raises, which is `None` here. */
  function ParseInt(s: string): Option<int> {
    var t := TrimEnd(TrimStart(s));
    if |t| > 0 && (t[0] == '+' || t[0] == '-') then
      var digits := t[1..];
      if |digits| > 0 && AllDigits(digits) then
        var v: int := DigitsValue(digits);
        Some(if t[0] == '-' then -v else v)
      else None
    else if |t| > 0 && AllDigits(t) then
      Some(DigitsValue(t))
    else None
  }

  /** `str(n)` for a natural number. */
  function Decimal(n: nat): (r: string)
    ensures |r| > 0 && AllDigits(r)
    ensures DigitsValue(r) == n
  {
    if n < 10 then [DigitChar(n)]
    else
      var r := Decimal(n / 10) + [DigitChar(n % 10)];
      assert r[..|r| - 1] == Decimal(n / 10);
      r
  }

  /** `f"{n:02d}"`: at least two characters, zero-padded after the sign. */
  function Pad2(n: int): string
  {
    if n < 0 then "-" + Decimal(-n)
    else if n < 10 then "0" + Decimal(n)
    else Decimal(n)
  }

  /** `minute - (minute % 10)` with Python's floored `%`, which for the
      positive divisor 10 agrees with Dafny's: the largest multiple of ten
      not above `minute`. */
  function BucketMinute(minute: int): (b: int)
    ensures b % 10 == 0
    ensures b <= minute < b + 10
  {
    minute - minute % 10
  }

  /** The bucket key of one timestamp: `ts[:14] + f"{bucket_min:02d}"`,
      where the minute is `int(ts[14:16])`. A minute field `int()` rejects
      raises; the error carries that field. */
  function Bucket(ts: string): (r: Result<string>)
    ensures r.Err? <==> ParseInt(Slice(ts, 14, 16)).None?
    ensures r.Err? ==> r.error == Slice(ts, 14, 16)
  {
    var field := Slice(ts, 14, 16);
    match ParseInt(field)
    case None => Err(field)
    case Some(minute) => Ok(Slice(ts, 0, 14) + Pad2(BucketMinute(minute)))
  }

  /** A successful key keeps the timestamp's first fourteen characters and
      follows them with text that `int()` reads back as the bucket minute. */
  lemma BucketKeyShape(ts: string)
    requires Bucket(ts).Ok?
    ensures var key, prefix := Bucket(ts).value, Slice(ts, 0, 14);
      && |prefix| <= |key|
      && key[..|prefix|] == prefix
      && ParseInt(key[|prefix|..]) == Some(BucketMinute(ParseInt(Slice(ts, 14, 16)).value))
  {
    var bm := BucketMinute(ParseInt(Slice(ts, 14, 16)).value);
    var prefix := Slice(ts, 0, 14);
    var key := prefix + Pad2(bm);
    assert Bucket(ts).value == key;
    ParsePad2(bm);
    assert key[..|prefix|] == prefix && key[|prefix|..] == Pad2(bm);
  }

  /** A timestamp whose minute sits, as two digits, at offsets 14 and 15,
      as in `YYYY-MM-DDTHH:MM...`. */
  predicate WellFormed(ts: string) {
    |ts| >= 16 && IsDigit(ts[14]) && IsDigit(ts[15])
  }

  lemma {:induction false} LeadingZero(d: string)
    requires AllDigits(d)
    ensures AllDigits("0" + d) && DigitsValue("0" + d) == DigitsValue(d)
  {
    if |d| > 0 {
      LeadingZero(d[..|d| - 1]);
      assert ("0" + d)[..|"0" + d| - 1] == "0" + d[..|d| - 1];
    }
  }

  lemma NoSpaceNoTrim(s: string)
    requires forall i :: 0 <= i < |s| ==> !IsSpace(s[i])
    ensures TrimEnd(TrimStart(s)) == s
  {
  }

  /** `int()` on plain text: the empty string does not parse, and a run of
      digits parses to its decimal value. */
  lemma ParseDigits(s: string)
    ensures ParseInt("").None?
    ensures |s| > 0 && AllDigits(s) ==> ParseInt(s) == Some(DigitsValue(s))
  {
    if |s| > 0 && AllDigits(s) {
      NoSpaceNoTrim(s);
      var t := TrimEnd(TrimStart(s));
      assert t == s;
      assert !(t[0] == '+' || t[0] == '-');
    }
  }

  /** `int()` of a minus sign followed by digits is the negated value. */
  lemma ParseNegative(s: string)
    requires |s| > 1 && s[0] == '-' && AllDigits(s[1..])
    ensures ParseInt(s) == Some(-(DigitsValue(s[1..]) as int))
  {
    assert forall i :: 1 <= i < |s| ==> s[i] == s[1..][i - 1];
    NoSpaceNoTrim(s);
    assert TrimEnd(TrimStart(s)) == s;
  }

  /** `f"{n:02d}"` is at least two characters wide and starts with a minus
      sign exactly for negative numbers. */
  lemma Pad2Shape(n: int)
    ensures |Pad2(n)| >= 2
    ensures Pad2(n)[0] == '-' <==> n < 0
  {
    if n >= 10 {
      assert Decimal(n) == Decimal(n / 10) + [DigitChar(n % 10)];
    }
  }

  /** Formatting and parsing agree: `int(f"{n:02d}") == n`. */
  lemma ParsePad2(n: int)
    ensures ParseInt(Pad2(n)) == Some(n)
  {
    var p := Pad2(n);
    NoSpaceNoTrim(p);
    if n < 0 {
      assert p[1..] == Decimal(-n);
    } else if n < 10 {
      LeadingZero(Decimal(n));
    }
  }

  lemma TwoDigits(s: string)
    requires |s| == 2 && IsDigit(s[0]) && IsDigit(s[1])
    ensures ParseInt(s) == Some(10 * DigitValue(s[0]) + DigitValue(s[1]))
  {
    NoSpaceNoTrim(s);
    assert s[..1] == [s[0]];
    assert s[..1][..0] == [];
    assert DigitsValue(s[..1]) == DigitValue(s[0]);
    assert DigitsValue(s) == 10 * DigitValue(s[0]) + DigitValue(s[1]);
    assert s[0] != '+' && s[0] != '-';
  }

  lemma DecimalOfTens(k: nat)
    requires 1 <= k <= 9
    ensures Decimal(10 * k) == [DigitChar(k), '0']
  {
    assert (10 * k) / 10 == k && (10 * k) % 10 == 0;
    assert Decimal(k) == [DigitChar(k)];
  }

  /** On a well-formed timestamp the bucket key is the timestamp cut after
      the minute's tens digit, followed by `0`: sixteen characters whose
      minute is a multiple of ten, at most ten below the original. */
  lemma BucketOfWellFormed(ts: string)
    requires WellFormed(ts)
    ensures Bucket(ts) == Ok(ts[..15] + "0")
  {
    var field := Slice(ts, 14, 16);
    assert field == ts[14..16];
    TwoDigits(field);
    var tens := DigitValue(ts[14]);
    var minute := 10 * tens + DigitValue(ts[15]);
    assert BucketMinute(minute) == 10 * tens;
    assert DigitChar(tens) == ts[14];
    assert ParseInt(field) == Some(minute);
    assert Pad2(10 * tens) == [ts[14], '0'] by {
      if tens == 0 {
        assert Pad2(0) == "0" + Decimal(0);
      } else {
        DecimalOfTens(tens);
      }
    }
    assert Slice(ts, 0, 14) == ts[..14];
    assert Bucket(ts) == Ok(ts[..14] + [ts[14], '0']);
    assert ts[..15] + "0" == ts[..14] + [ts[14], '0'];
  }

  lemma SmallDigits(d: string)
    requires AllDigits(d) && |d| <= 2
    ensures DigitsValue(d) <= (if |d| <= 1 then 9 else 99)
  {
    if |d| > 0 {
      assert AllDigits(d[..|d| - 1]);
      if |d| == 2 {
        assert d[..1][..0] == [];
      }
    }
  }

  /** A minute field of at most two characters parses, if at all, to a
      number between -9 and 99. */
  lemma ParseIntRange(s: string)
    requires |s| <= 2 && ParseInt(s).Some?
    ensures -9 <= ParseInt(s).value <= 99
  {
    var t := TrimEnd(TrimStart(s));
    if |t| > 0 && (t[0] == '+' || t[0] == '-') {
      SmallDigits(t[1..]);
    } else {
      SmallDigits(t);
    }
  }

  lemma Pad2Width(n: int)
    requires 0 <= n <= 99
    ensures |Pad2(n)| == 2
  {
    if n >= 10 {
      assert Decimal(n) == Decimal(n / 10) + [DigitChar(n % 10)];
    }
  }

  lemma ParseMinusOne()
    ensures ParseInt("-1") == Some(-1)
  {
    ParsePad2(-1);
    assert Pad2(-1) == "-1";
  }

  /** A key built from a fourteen-character prefix and a bucket minute
      between -10 and 90 is its own bucket. */
  lemma KeyIsFixedPoint(prefix: string, bm: int)
    requires |prefix| == 14 && bm % 10 == 0 && -10 <= bm <= 90
    ensures Bucket(prefix + Pad2(bm)) == Ok(prefix + Pad2(bm))
  {
    var key := prefix + Pad2(bm);
    assert Slice(key, 0, 14) == prefix;
    if bm >= 0 {
      Pad2Width(bm);
      assert Slice(key, 14, 16) == Pad2(bm);
      ParsePad2(bm);
      assert BucketMinute(bm) == bm;
    } else {
      assert Pad2(bm) == "-10" by {
        assert Decimal(10) == Decimal(1) + [DigitChar(0)];
      }
      assert Slice(key, 14, 16) == "-1";
      ParseMinusOne();
      assert BucketMinute(-1) == bm;
    }
    assert Bucket(key) == Ok(prefix + Pad2(bm));
  }

  /** Re-bucketing a bucket key gives the same key. */
  lemma BucketIdempotent(ts: string)
    requires Bucket(ts).Ok?
    ensures Bucket(Bucket(ts).value) == Bucket(ts)
  {
    var field := Slice(ts, 14, 16);
    var minute := ParseInt(field).value;
    ParseIntRange(field);
    assert |field| > 0;
    var bm := BucketMinute(minute);
    var key := Slice(ts, 0, 14) + Pad2(bm);
    assert Bucket(ts) == Ok(key);
    assert |Slice(ts, 0, 14)| == 14;
    KeyIsFixedPoint(Slice(ts, 0, 14), bm);
  }

  /** How many times `k` occurs in `s`. */
  function Count(s: seq<string>, k: string): nat {
    if |s| == 0 then 0 else (if s[0] == k then 1 else 0) + Count(s[1..], k)
  }

  /** A key is counted exactly when it occurs. */
  lemma {:induction false} CountPositive(s: seq<string>, k: string)
    ensures Count(s, k) > 0 <==> k in s
  {
    if |s| > 0 {
      CountPositive(s[1..], k);
      assert s == [s[0]] + s[1..];
    }
  }
  /** The bucket of every row, success or failure, in row order. */
  function BucketRows(rows: seq<string>): (rs: seq<Result<string>>)
    ensures |rs| == |rows|
  {
    seq(|rows|, i requires 0 <= i < |rows| => Bucket(rows[i]))
  }

  predicate AllOk(rs: seq<Result<string>>) {
    forall i :: 0 <= i < |rs| ==> rs[i].Ok?
  }

  /** Gathers per-row outcomes visiting them last to first, as
      `for row in reversed(rows)` does: it succeeds exactly when every row
      does, with the buckets in row order. */
  function Collect(rs: seq<Result<string>>): (r: Result<seq<string>>)
    ensures r.Ok? <==> AllOk(rs)
    ensures r.Ok? ==> |r.value| == |rs| && forall i :: 0 <= i < |rs| ==> r.value[i] == rs[i].value
  {
    if |rs| == 0 then Ok([])
    else
      var init := rs[..|rs| - 1];
      var last := rs[|rs| - 1];
      assert forall i :: 0 <= i < |init| ==> init[i] == rs[i];
      if last.Err? then
        Err(last.error)
      else
        var prev := Collect(init);
        if prev.Err? then Err(prev.error) else Ok(prev.value + [last.value])
  }

  /** The failure reported is that of the last failing row: the first one
      the reversed loop meets. */
  lemma {:induction false} CollectReportsLastFailure(rs: seq<Result<string>>, i: nat)
    requires i < |rs| && rs[i].Err? && AllOk(rs[i + 1..])
    ensures Collect(rs) == Err(rs[i].error)
  {
    var init := rs[..|rs| - 1];
    if i < |rs| - 1 {
      assert rs[|rs| - 1] == rs[i + 1..][|rs| - 2 - i];
      assert init[i + 1..] == rs[i + 1..|rs| - 1];
      CollectReportsLastFailure(init, i);
    }
  }

  function BucketAll(rows: seq<string>): Result<seq<string>> {
    Collect(BucketRows(rows))
  }

  function Keys(out: seq<(string, nat)>): (ks: seq<string>)
    ensures |ks| == |out| && forall i :: 0 <= i < |out| ==> ks[i] == out[i].0
  {
    seq(|out|, i requires 0 <= i < |out| => out[i].0)
  }

  /** `out` is the sorted `Counter` of `buckets`: ascending distinct keys,
      exactly the buckets that occur, each with its number of occurrences. */
  ghost predicate IsHistogram(out: seq<(string, nat)>, buckets: seq<string>) {
    && StrictlySorted(Keys(out))
    && (forall k :: k in Keys(out) <==> k in buckets)
    && (forall i :: 0 <= i < |out| ==> out[i].1 == Count(buckets, out[i].0))
  }

  /** One more successful row in front of a collected suffix. */
  lemma CollectCons(rs: seq<Result<string>>, i: nat, seen: seq<string>)
    requires i < |rs| && rs[i].Ok? && Collect(rs[i + 1..]) == Ok(seen)
    ensures AllOk(rs[i..])
    ensures Collect(rs[i..]) == Ok([rs[i].value] + seen)
  {
    var suffix := rs[i..];
    assert forall j :: 0 <= j < |suffix| ==> suffix[j] == rs[i + j];
    assert forall j :: 0 <= j < |suffix| ==> suffix[j].Ok?;
    var got := Collect(suffix).value;
    var want := [rs[i].value] + seen;
    assert |got| == |want|;
    forall j | 0 <= j < |got| ensures got[j] == want[j] {
      if j > 0 {
        assert rs[i + 1..][j - 1] == rs[i + j];
      }
    }
    assert got == want;
  }

  /** Counting over one more key in front. */
  lemma CountCons(b: string, seen: seq<string>)
    ensures forall k :: Count([b] + seen, k) == (if b == k then 1 else 0) + Count(seen, k)
  {
    assert ([b] + seen)[1..] == seen;
  }

  /** The counting loop of the analysis: the per-row outcomes visited last
      to first, each bucket counted, stopping at the first failure met. */
  method CountResults(rs: seq<Result<string>>) returns (r: Result<map<string, nat>>)
    ensures r.Err? <==> Collect(rs).Err?
    ensures r.Err? ==> r.error == Collect(rs).error
    ensures r.Ok? ==> forall k :: k in r.value <==> k in Collect(rs).value
    ensures r.Ok? ==> forall k :: k in r.value ==> r.value[k] == Count(Collect(rs).value, k)
  {
    var counts: map<string, nat> := map[];
    var i := |rs|;
    ghost var seen: seq<string> := [];
    while i > 0
      invariant 0 <= i <= |rs|
      invariant Collect(rs[i..]) == Ok(seen)
      invariant AllOk(rs[i..])
      invariant forall k :: k in counts <==> k in seen
      invariant forall k :: k in counts ==> counts[k] == Count(seen, k)
    {
      i := i - 1;
      var b := rs[i];
      if b.Err? {
        CollectReportsLastFailure(rs, i);
        return Err(b.error);
      }
      CountPositive(seen, b.value);
      var previous := if b.value in counts then counts[b.value] else 0;
      counts := counts[b.value := previous + 1];
      CollectCons(rs, i, seen);
      CountCons(b.value, seen);
      seen := [b.value] + seen;
    }
    assert rs[0..] == rs;
    r := Ok(counts);
  }

  /** `sorted(counts.items())`: the counted buckets in ascending key order. */
  method SortedItems(counts: map<string, nat>) returns (out: seq<(string, nat)>)
    ensures StrictlySorted(Keys(out))
    ensures forall k :: k in Keys(out) <==> k in counts
    ensures forall i :: 0 <= i < |out| ==> out[i].0 in counts && out[i].1 == counts[out[i].0]
  {
    var pending := counts.Keys;
    var sorted: seq<string> := [];
    while pending != {}
      invariant StrictlySorted(sorted)
      invariant forall k :: k in counts <==> k in sorted || k in pending
      invariant forall k :: k in pending ==> k !in sorted
      decreases pending
    {
      var k :| k in pending;
      sorted := Insert(sorted, k);
      pending := pending - {k};
    }
    out := seq(|sorted|, j requires 0 <= j < |sorted| && sorted[j] in counts => (sorted[j], counts[sorted[j]]));
    assert Keys(out) == sorted;
  }

  /** The whole analysis of one CSV's timestamp column: the per-bucket
      counts in key order, or the minute field `int()` rejected. */
  method Analyze(rows: seq<string>) returns (r: Result<seq<(string, nat)>>)
    ensures r.Err? <==> BucketAll(rows).Err?
    ensures r.Err? ==> r.error == BucketAll(rows).error
    ensures r.Ok? ==> IsHistogram(r.value, BucketAll(rows).value)
  {
    var counted := CountResults(BucketRows(rows));
    if counted.Err? {
      return Err(counted.error);
    }
    var items := SortedItems(counted.value);
    r := Ok(items);
  }

  lemma {:induction false} CountAppend(a: seq<string>, b: seq<string>, k: string)
    ensures Count(a + b, k) == Count(a, k) + Count(b, k)
  {
    if |a| > 0 {
      CountAppend(a[1..], b, k);
      assert (a + b)[1..] == a[1..] + b;
    } else {
      assert a + b == b;
    }
  }

  /** Counting the rows in reverse order, as the analysis does, gives every
      bucket the same count as counting them in file order. */
  lemma {:induction false} CountReverse(s: seq<string>, k: string)
    ensures Count(Reverse(s), k) == Count(s, k)
  {
    if |s| > 0 {
      CountReverse(s[1..], k);
      CountAppend(Reverse(s[1..]), [s[0]], k);
      assert [s[0]][1..] == [];
    }
  }

  function SumCounts(out: seq<(string, nat)>): nat {
    if |out| == 0 then 0 else out[0].1 + SumCounts(out[1..])
  }

  /** The counts, over the keys `ks`, of the occurrences in `bs`. */
  function SumOver(ks: seq<string>, bs: seq<string>): nat {
    if |ks| == 0 then 0 else Count(bs, ks[0]) + SumOver(ks[1..], bs)
  }

  lemma {:induction false} SumOverCons(ks: seq<string>, x: string, rest: seq<string>)
    ensures SumOver(ks, [x] + rest) == Count(ks, x) + SumOver(ks, rest)
  {
    if |ks| > 0 {
      SumOverCons(ks[1..], x, rest);
      assert ([x] + rest)[1..] == rest;
    }
  }

  lemma {:induction false} SumOverNothing(ks: seq<string>)
    ensures SumOver(ks, []) == 0
  {
    if |ks| > 0 {
      SumOverNothing(ks[1..]);
    }
  }

  lemma {:induction false} CountOnce(ks: seq<string>, x: string)
    requires StrictlySorted(ks) && x in ks
    ensures Count(ks, x) == 1
  {
    if ks[0] == x {
      Irreflexive(x);
      assert x !in ks[1..];
      CountPositive(ks[1..], x);
    } else {
      CountOnce(ks[1..], x);
    }
  }

  /** Distinct keys covering every occurrence account for all of them. */
  lemma {:induction false} SumOverAll(ks: seq<string>, bs: seq<string>)
    requires StrictlySorted(ks)
    requires forall b :: b in bs ==> b in ks
    ensures SumOver(ks, bs) == |bs|
  {
    if |bs| == 0 {
      SumOverNothing(ks);
    } else {
      assert bs == [bs[0]] + bs[1..];
      SumOverCons(ks, bs[0], bs[1..]);
      CountOnce(ks, bs[0]);
      SumOverAll(ks, bs[1..]);
    }
  }

  lemma {:induction false} SumCountsIsSumOver(out: seq<(string, nat)>, bs: seq<string>)
    requires forall i :: 0 <= i < |out| ==> out[i].1 == Count(bs, out[i].0)
    ensures SumCounts(out) == SumOver(Keys(out), bs)
  {
    if |out| > 0 {
      SumCountsIsSumOver(out[1..], bs);
      assert Keys(out)[1..] == Keys(out[1..]);
    }
  }

  /** The bucket counts add up to the number of rows counted. */
  lemma HistogramTotal(out: seq<(string, nat)>, bs: seq<string>)
    requires IsHistogram(out, bs)
    ensures SumCounts(out) == |bs|
  {
    SumCountsIsSumOver(out, bs);
    SumOverAll(Keys(out), bs);
  }

  /** A successful analysis counts every row exactly once. */
  lemma AnalysisCountsEveryRow(rows: seq<string>, out: seq<(string, nat)>)
    requires BucketAll(rows).Ok? && IsHistogram(out, BucketAll(rows).value)
    ensures SumCounts(out) == |rows|
  {
    HistogramTotal(out, BucketAll(rows).value);
  }
}
