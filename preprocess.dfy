/** Date alignment of one category (src/preprocess.py): the dates common
    to every ticker's frame, sorted, and the guards that decide whether the
    category's aligned frames are written at all. */
module Preprocess {
  import opened Data

  /** The frames read for one category: ticker name to frame, in the
      dictionary's insertion order. */
  type CategoryFrames = seq<(string, Frame)>

  /** d occurs in the date index of every frame, and there is at least one
      frame. */
  ghost predicate InAll(dfs: CategoryFrames, d: Date) {
    |dfs| > 0 && forall k :: 0 <= k < |dfs| ==> d in dfs[k].1.dates
  }

  /** What `find_common_dates` promises of its result r: r is sorted
      without duplicates and holds exactly the dates common to all frames. */
  ghost predicate IsCommonDates(dfs: CategoryFrames, r: seq<Date>) {
    StrictlyIncreasing(r) && forall d :: d in r <==> InAll(dfs, d)
  }

  /** `set(df.index)`: the dates of an index, without order or repetition. */
  function DateSet(dates: seq<Date>): (s: set<Date>)
    ensures forall d :: d in s <==> d in dates
  {
    set d | d in dates
  }

  /** The running `common_dates` after the frames of dfs have been visited:
      None before the first frame, then the first index as a set, then
      intersected with every following index. */
  function CommonSoFar(dfs: CategoryFrames): Option<set<Date>> {
    if |dfs| == 0 then None
    else
      var last := DateSet(dfs[|dfs| - 1].1.dates);
      match CommonSoFar(dfs[..|dfs| - 1])
      case None => Some(last)
      case Some(common) => Some(common * last)
  }

  /** The running value is None exactly when no frame was visited, and
      otherwise holds exactly the dates present in every visited frame. */
  lemma {:induction false} CommonSoFarMeaning(dfs: CategoryFrames)
    ensures CommonSoFar(dfs).None? <==> |dfs| == 0
    ensures CommonSoFar(dfs).Some? ==> forall d :: d in CommonSoFar(dfs).value <==> InAll(dfs, d)
  {
    if |dfs| > 0 {
      var init := dfs[..|dfs| - 1];
      CommonSoFarMeaning(init);
      forall d ensures d in CommonSoFar(dfs).value <==> InAll(dfs, d) {
        if InAll(dfs, d) && |init| > 0 {
          assert InAll(init, d) by {
            forall k | 0 <= k < |init| ensures d in init[k].1.dates {
              assert init[k] == dfs[k];
            }
          }
        }
        if d in CommonSoFar(dfs).value {
          forall k | 0 <= k < |dfs| ensures d in dfs[k].1.dates {
            if k < |init| {
              assert init[k] == dfs[k];
            }
          }
        }
      }
    }
  }

  /** A set with no element is the empty set. */
  lemma NoElementIsEmpty(s: set<Date>)
    requires forall d :: d !in s
    ensures s == {}
  {
    var none: set<Date> := {};
    assert forall d :: d in s <==> d in none;
  }

  /** Some element of a non-empty set. */
  lemma {:induction false} SomeElement(s: set<Date>) returns (y: Date)
    requires s != {}
    ensures y in s
  {
    if forall d :: d !in s {
      NoElementIsEmpty(s);
      assert false;
    }
    y :| y in s;
  }

  /** Every non-empty set of dates has a least element. */
  lemma {:induction false} MinExists(s: set<Date>)
    requires s != {}
    ensures exists m :: m in s && forall x :: x in s ==> m <= x
    decreases s
  {
    var y := SomeElement(s);
    var t := s - {y};
    if t != {} {
      MinExists(t);
      var m :| m in t && forall x :: x in t ==> m <= x;
      var least := if y < m then y else m;
      forall x | x in s ensures least <= x {
        if x != y { assert x in t; }
      }
    } else {
      forall x | x in s ensures y <= x {
        assert x == y || x in t;
      }
    }
  }

  /** The least element of a non-empty set of dates. */
  function Least(s: set<Date>): (m: Date)
    requires s != {}
    ensures m in s && forall x :: x in s ==> m <= x
  {
    MinExists(s);
    var m :| m in s && forall x :: x in s ==> m <= x;
    m
  }

  /** Python's `sorted(list(s))` for a set of dates: the elements of s in
      ascending order. */
  function SortedSeq(s: set<Date>): (r: seq<Date>)
    ensures StrictlyIncreasing(r)
    ensures forall d :: d in r <==> d in s
    decreases s
  {
    if s == {} then []
    else
      var m := Least(s);
      var rest := SortedSeq(s - {m});
      assert forall i :: 0 <= i < |rest| ==> m < rest[i] by {
        forall i | 0 <= i < |rest| ensures m < rest[i] {
          assert rest[i] in rest;
        }
      }
      [m] + rest
  }

  /** find_common_dates: intersect the date indices of all frames, in
      dictionary order, then sort. */
  method FindCommonDates(dfs: CategoryFrames) returns (r: seq<Date>)
    ensures StrictlyIncreasing(r)
    ensures forall d :: d in r <==> InAll(dfs, d)
  {
    var common: Option<set<Date>> := None;
    for k := 0 to |dfs|
      invariant common == CommonSoFar(dfs[..k])
    {
      assert dfs[..k + 1][..k] == dfs[..k];
      var index := DateSet(dfs[k].1.dates);
      if common.None? {
        common := Some(index);
      } else {
        common := Some(common.value * index);
      }
    }
    assert dfs[..|dfs|] == dfs;
    CommonSoFarMeaning(dfs);
    if common.None? || common.value == {} {
      return [];
    }
    r := SortedSeq(common.value);
  }

  /** The head of a strictly increasing sequence is its least element. */
  lemma HeadIsLeast(r: seq<int>, d: int)
    requires StrictlyIncreasing(r) && d in r
    ensures r[0] <= d
  {
    var j :| 0 <= j < |r| && r[j] == d;
    assert j == 0 || r[0] < r[j];
  }

  /** Two strictly increasing sequences with the same elements are equal. */
  lemma {:induction false} SortedUnique(r: seq<int>, r': seq<int>)
    requires StrictlyIncreasing(r) && StrictlyIncreasing(r')
    requires forall d :: d in r <==> d in r'
    ensures r == r'
  {
    if |r| > 0 { assert r[0] in r; }
    if |r'| > 0 { assert r'[0] in r'; }
    if |r| > 0 && |r'| > 0 {
      HeadIsLeast(r, r'[0]);
      HeadIsLeast(r', r[0]);
      forall d ensures d in r[1..] <==> d in r'[1..] {
        if d in r[1..] {
          var j :| 1 <= j < |r| && r[j] == d;
          assert r[0] < d && d in r';
          var j' :| 0 <= j' < |r'| && r'[j'] == d;
          assert j' != 0;
        }
        if d in r'[1..] {
          var j :| 1 <= j < |r'| && r'[j] == d;
          assert r'[0] < d && d in r;
          var j' :| 0 <= j' < |r| && r[j'] == d;
          assert j' != 0;
        }
      }
      SortedUnique(r[1..], r'[1..]);
      assert r == [r[0]] + r[1..] && r' == [r'[0]] + r'[1..];
    }
  }

  /** The result does not depend on the order in which the dictionary
      yields its frames, nor on the ticker names: any two frame collections
      with the same date indices have the same common dates. */
  lemma CommonDatesOrderIndependent(dfs: CategoryFrames, dfs': CategoryFrames, r: seq<Date>, r': seq<Date>)
    requires |dfs| > 0 <==> |dfs'| > 0
    requires forall f :: f in Indices(dfs) <==> f in Indices(dfs')
    requires IsCommonDates(dfs, r) && IsCommonDates(dfs', r')
    ensures r == r'
  {
    forall d ensures d in r <==> d in r' {
      if InAll(dfs, d) {
        forall k | 0 <= k < |dfs'| ensures d in dfs'[k].1.dates {
          assert dfs'[k].1.dates in Indices(dfs');
          var j :| 0 <= j < |dfs| && Indices(dfs)[j] == dfs'[k].1.dates;
        }
      }
      if InAll(dfs', d) {
        forall k | 0 <= k < |dfs| ensures d in dfs[k].1.dates {
          assert dfs[k].1.dates in Indices(dfs);
          var j :| 0 <= j < |dfs'| && Indices(dfs')[j] == dfs[k].1.dates;
        }
      }
    }
    SortedUnique(r, r');
  }

  /** The date indices of the frames, in dictionary order. */
  function Indices(dfs: CategoryFrames): (ix: seq<seq<Date>>)
    ensures |ix| == |dfs|
    ensures forall k :: 0 <= k < |dfs| ==> ix[k] == dfs[k].1.dates
  {
    seq(|dfs|, k requires 0 <= k < |dfs| => dfs[k].1.dates)
  }

  /** A frame with an empty date index leaves nothing in common. */
  lemma EmptyIndexGivesNoDates(dfs: CategoryFrames, k: nat, r: seq<Date>)
    requires k < |dfs| && dfs[k].1.dates == []
    requires IsCommonDates(dfs, r)
    ensures r == []
  {
    forall d ensures d !in r {
      assert !InAll(dfs, d) by {
        assert d !in dfs[k].1.dates;
      }
    }
    SortedUnique(r, []);
  }

  /** With a single frame the result is that frame's index, deduplicated
      and sorted. */
  lemma SingleFrameDates(key: string, f: Frame, r: seq<Date>)
    requires IsCommonDates([(key, f)], r)
    ensures r == SortedSeq(DateSet(f.dates))
  {
    var s := SortedSeq(DateSet(f.dates));
    forall d ensures d in r <==> d in s {
      assert [(key, f)][0].1.dates == f.dates;
    }
    SortedUnique(r, s);
  }

  /** One aligned output file of a category: the ticker it belongs to and
      the dates its rows are selected at (the common dates). */
  datatype AlignedFile = AlignedFile(category: string, ticker: string, dates: seq<Date>)

  /** process_category after the category's frames have been read: nothing
      is written when there are no frames or no common dates; otherwise one
      file per ticker, in dictionary order, restricted to the common dates. */
  method ProcessCategory(category: string, dfs: CategoryFrames) returns (written: seq<AlignedFile>)
    ensures written == [] <==> forall d :: !InAll(dfs, d)
    ensures written != [] ==> |written| == |dfs|
    ensures forall k :: 0 <= k < |written| ==>
              written[k].category == category && written[k].ticker == dfs[k].0 &&
              IsCommonDates(dfs, written[k].dates)
  {
    written := [];
    if |dfs| == 0 {
      return;
    }
    var commonDates := FindCommonDates(dfs);
    if commonDates == [] {
      return;
    }
    for k := 0 to |dfs|
      invariant |written| == k
      invariant forall j :: 0 <= j < k ==>
                  written[j] == AlignedFile(category, dfs[j].0, commonDates)
    {
      written := written + [AlignedFile(category, dfs[k].0, commonDates)];
    }
    assert commonDates[0] in commonDates;
  }
}
