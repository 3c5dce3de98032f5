/**
 * The records of the input table and the grouping loop of Fig5_heatmap.py,
 * `grouped.setdefault(row["Group"], []).append(row)` over every loaded row.
 *
 * Python dictionaries remember the order in which keys were first inserted; the
 * model returns that key order next to the map of buckets.
 */
module Grouping {

  /** One row of the table: identifier, group and the three metrics (z-scores). */
  datatype Record = Record(id: string, group: string, rootToTip: real, meanDist: real, closestBact: real)
  {
    /** The metrics in drawing order: RootToTip, MeanDist, ClosestBact. */
    function Values(): (v: seq<real>)
      ensures |v| == 3 && v[0] == rootToTip && v[1] == meanDist && v[2] == closestBact
    {
      [rootToTip, meanDist, closestBact]
    }
  }

  /** The set of groups that occur in `data`. */
  function GroupsOf(data: seq<Record>): set<string>
  {
    set r | r in data :: r.group
  }

  /** The records of `data` whose group is `g`, in their original order. */
  function Bucket(data: seq<Record>, g: string): (b: seq<Record>)
    ensures |b| <= |data|
    ensures forall k | 0 <= k < |b| :: b[k].group == g
  {
    if data == [] then []
    else
      var last := data[|data| - 1];
      Bucket(data[..|data| - 1], g) + (if last.group == g then [last] else [])
  }

  /** The groups of `data` in the order in which their first record appears. */
  function FirstSeen(data: seq<Record>): seq<string>
  {
    if data == [] then []
    else
      var earlier := FirstSeen(data[..|data| - 1]);
      var g := data[|data| - 1].group;
      if g in earlier then earlier else earlier + [g]
  }

  predicate Distinct(s: seq<string>)
  {
    forall j, k | 0 <= j < k < |s| :: s[j] != s[k]
  }

  /** The buckets of `keys`, one after the other. */
  function ConcatBuckets(data: seq<Record>, keys: seq<string>): seq<Record>
  {
    if keys == [] then [] else Bucket(data, keys[0]) + ConcatBuckets(data, keys[1..])
  }

  /** The grouping loop: the key order of the dictionary and its buckets. */
  method GroupRecords(data: seq<Record>) returns (order: seq<string>, grouped: map<string, seq<Record>>)
    ensures order == FirstSeen(data)
    ensures grouped.Keys == GroupsOf(data)
    ensures forall g | g in grouped :: grouped[g] == Bucket(data, g)
  {
    order := [];
    grouped := map[];
    for i := 0 to |data|
      invariant IsGrouping(data[..i], order, grouped)
    {
      var row := data[i];
      ghost var order0, grouped0 := order, grouped;
      // setdefault: a new key starts an empty bucket at the end of the key order
      var bucket := [];
      if row.group in grouped {
        bucket := grouped[row.group];
      } else {
        order := order + [row.group];
      }
      grouped := grouped[row.group := bucket + [row]];
      assert data[..i + 1] == data[..i] + [row];
      GroupStep(data[..i], row, order0, grouped0, order, grouped);
    }
    assert data[..|data|] == data;
  }

  /** `order` and `grouped` are the key order and the buckets of grouping `done`. */
  ghost predicate IsGrouping(done: seq<Record>, order: seq<string>, grouped: map<string, seq<Record>>)
  {
    && order == FirstSeen(done)
    && grouped.Keys == GroupsOf(done)
    && forall g | g in grouped :: grouped[g] == Bucket(done, g)
  }

  /** What one `setdefault(...).append(row)` does to the key order and the buckets. */
  lemma GroupStep(done: seq<Record>, row: Record, order: seq<string>, grouped: map<string, seq<Record>>,
                  order': seq<string>, grouped': map<string, seq<Record>>)
    requires IsGrouping(done, order, grouped)
    requires order' == if row.group in grouped then order else order + [row.group]
    requires grouped' == grouped[row.group := (if row.group in grouped then grouped[row.group] else []) + [row]]
    ensures IsGrouping(done + [row], order', grouped')
  {
    assert order' == FirstSeen(done + [row]) by {
      FirstSeenCovers(done);
      BucketsSnoc(done, row);
    }
    assert grouped'.Keys == GroupsOf(done + [row]) by {
      GroupsOfSnoc(done, row);
    }
    forall g | g in grouped'
      ensures grouped'[g] == Bucket(done + [row], g)
    {
      BucketsSnoc(done, row);
      if g != row.group {
        assert grouped'[g] == grouped[g];
      } else if row.group !in grouped {
        BucketOfAbsent(done, row.group);
      }
    }
  }

  lemma BucketsSnoc(data: seq<Record>, r: Record)
    ensures forall g {:trigger Bucket(data + [r], g)} :: Bucket(data + [r], g) == Bucket(data, g) + (if r.group == g then [r] else [])
    ensures FirstSeen(data + [r]) == if r.group in FirstSeen(data) then FirstSeen(data) else FirstSeen(data) + [r.group]
  {
    assert (data + [r])[..|data|] == data;
  }

  lemma GroupsOfSnoc(data: seq<Record>, r: Record)
    ensures GroupsOf(data + [r]) == GroupsOf(data) + {r.group}
  {
    assert forall x :: x in data + [r] <==> x in data || x == r;
  }

  /** The groups listed by `FirstSeen` are exactly those of the data. */
  lemma {:induction false} FirstSeenCovers(data: seq<Record>)
    ensures forall g :: g in FirstSeen(data) <==> g in GroupsOf(data)
  {
    if data != [] {
      var front := data[..|data| - 1];
      assert data == front + [data[|data| - 1]];
      FirstSeenCovers(front);
    }
  }

  /** `FirstSeen` lists no group twice. */
  lemma {:induction false} FirstSeenDistinct(data: seq<Record>)
    ensures Distinct(FirstSeen(data))
  {
    if data != [] {
      FirstSeenDistinct(data[..|data| - 1]);
    }
  }

  /** The index of the first record of group `g`. */
  function FirstIndex(data: seq<Record>, g: string): (i: nat)
    requires g in GroupsOf(data)
    ensures i < |data| && data[i].group == g
    ensures forall k | 0 <= k < i :: data[k].group != g
  {
    if data[0].group == g then 0
    else
      assert g in GroupsOf(data[1..]) by {
        var r :| r in data && r.group == g;
        assert r in data[1..];
      }
      1 + FirstIndex(data[1..], g)
  }

  /** Adding records at the end does not move the first record of a group already present. */
  lemma FirstIndexPrefix(data: seq<Record>, n: nat, g: string)
    requires n <= |data| && g in GroupsOf(data[..n])
    ensures g in GroupsOf(data) && FirstIndex(data, g) == FirstIndex(data[..n], g)
  {
    var r :| r in data[..n] && r.group == g;
    assert r in data;
    var i, j := FirstIndex(data, g), FirstIndex(data[..n], g);
    assert data[..n][j] == data[j];
  }

  /** The groups of `FirstSeen(data)` are listed in the order of their first record. */
  predicate OrderedByFirstRecord(data: seq<Record>)
  {
    forall j, k | 0 <= j < k < |FirstSeen(data)| ::
      FirstSeen(data)[j] in GroupsOf(data) && FirstSeen(data)[k] in GroupsOf(data) &&
      FirstIndex(data, FirstSeen(data)[j]) < FirstIndex(data, FirstSeen(data)[k])
  }

  /** Groups appear in `FirstSeen` in the order of their first record. */
  lemma {:induction false} FirstSeenOrder(data: seq<Record>)
    ensures OrderedByFirstRecord(data)
  {
    FirstSeenCovers(data);
    if data != [] {
      FirstSeenOrder(data[..|data| - 1]);
      forall j, k | 0 <= j < k < |FirstSeen(data)|
        ensures FirstSeen(data)[j] in GroupsOf(data) && FirstSeen(data)[k] in GroupsOf(data)
        ensures FirstIndex(data, FirstSeen(data)[j]) < FirstIndex(data, FirstSeen(data)[k])
      {
        FirstSeenOrderStep(data, j, k);
      }
    }
  }

  /** The inductive step of `FirstSeenOrder` for one pair of positions. */
  lemma FirstSeenOrderStep(data: seq<Record>, j: nat, k: nat)
    requires data != [] && j < k < |FirstSeen(data)|
    requires OrderedByFirstRecord(data[..|data| - 1])
    ensures FirstSeen(data)[j] in GroupsOf(data) && FirstSeen(data)[k] in GroupsOf(data)
    ensures FirstIndex(data, FirstSeen(data)[j]) < FirstIndex(data, FirstSeen(data)[k])
  {
    var n := |data| - 1;
    var front := data[..n];
    var earlier := FirstSeen(front);
    var order := FirstSeen(data);
    FirstSeenCovers(front);
    FirstSeenCovers(data);
    assert order[j] == earlier[j] && order[j] in GroupsOf(front);
    FirstIndexPrefix(data, n, order[j]);
    if k < |earlier| {
      assert order[k] == earlier[k];
      FirstIndexPrefix(data, n, order[k]);
    } else {
      NewGroupFirstAtEnd(data);
    }
  }

  /** A group that the last record brings in first occurs at the end. */
  lemma NewGroupFirstAtEnd(data: seq<Record>)
    requires data != []
    requires |FirstSeen(data)| > |FirstSeen(data[..|data| - 1])|
    ensures FirstSeen(data)[|FirstSeen(data)| - 1] == data[|data| - 1].group
    ensures data[|data| - 1].group in GroupsOf(data)
    ensures FirstIndex(data, data[|data| - 1].group) == |data| - 1
  {
    var n := |data| - 1;
    var front := data[..n];
    var g := data[n].group;
    FirstSeenCovers(front);
    assert g !in GroupsOf(front);
    assert forall i | 0 <= i < n :: data[i] == front[i] && data[i] in front;
    assert data[n] in data;
  }

  /** Buckets of a concatenation are the concatenation of buckets: order inside a group is kept. */
  lemma {:induction false} BucketAppend(a: seq<Record>, b: seq<Record>, g: string)
    ensures Bucket(a + b, g) == Bucket(a, g) + Bucket(b, g)
  {
    if b != [] {
      var b' := b[..|b| - 1];
      assert (a + b)[..|a + b| - 1] == a + b';
      BucketAppend(a, b', g);
    } else {
      assert a + b == a;
    }
  }

  /** A record is in the bucket of `g` exactly when it is in the data and has group `g`. */
  lemma {:induction false} BucketMembers(data: seq<Record>, g: string, r: Record)
    ensures r in Bucket(data, g) <==> r in data && r.group == g
  {
    if data != [] {
      var front := data[..|data| - 1];
      assert data == front + [data[|data| - 1]];
      BucketMembers(front, g, r);
    }
  }

  lemma {:induction false} BucketOfAbsent(data: seq<Record>, g: string)
    requires g !in GroupsOf(data)
    ensures Bucket(data, g) == []
  {
    if data != [] {
      var front := data[..|data| - 1];
      assert data == front + [data[|data| - 1]];
      assert GroupsOf(front) <= GroupsOf(data);
      BucketOfAbsent(front, g);
    }
  }

  /** Appending one record adds it to the single bucket of its group, if that group is listed. */
  lemma {:induction false} ConcatBucketsSnoc(data: seq<Record>, r: Record, keys: seq<string>)
    requires Distinct(keys)
    ensures multiset(ConcatBuckets(data + [r], keys)) ==
      multiset(ConcatBuckets(data, keys)) + (if r.group in keys then multiset{r} else multiset{})
  {
    if keys != [] {
      assert (data + [r])[..|data + [r]| - 1] == data;
      assert Distinct(keys[1..]);
      ConcatBucketsSnoc(data, r, keys[1..]);
      assert r.group in keys <==> r.group == keys[0] || r.group in keys[1..];
      if r.group == keys[0] {
        assert r.group !in keys[1..];
      }
    }
  }

  /** With every group listed once, the buckets together hold each record exactly as often as the data. */
  lemma {:induction false} ConcatBucketsPartition(data: seq<Record>, keys: seq<string>)
    requires Distinct(keys)
    requires forall g | g in GroupsOf(data) :: g in keys
    ensures multiset(ConcatBuckets(data, keys)) == multiset(data)
  {
    if data == [] {
      EmptyBuckets(keys);
    } else {
      var front := data[..|data| - 1];
      var r := data[|data| - 1];
      assert data == front + [r];
      assert GroupsOf(front) <= GroupsOf(data);
      ConcatBucketsPartition(front, keys);
      ConcatBucketsSnoc(front, r, keys);
    }
  }

  lemma {:induction false} EmptyBuckets(keys: seq<string>)
    ensures ConcatBuckets([], keys) == []
  {
    if keys != [] {
      EmptyBuckets(keys[1..]);
    }
  }

  /**
   * Grouping keeps every record: read in first-seen group order, the buckets hold
   * each record of the data exactly as often as the data does.
   */
  lemma GroupingKeepsEveryRecord(data: seq<Record>)
    ensures multiset(ConcatBuckets(data, FirstSeen(data))) == multiset(data)
    ensures |ConcatBuckets(data, FirstSeen(data))| == |data|
  {
    FirstSeenDistinct(data);
    FirstSeenCovers(data);
    ConcatBucketsPartition(data, FirstSeen(data));
    assert |multiset(ConcatBuckets(data, FirstSeen(data)))| == |multiset(data)|;
  }
}
