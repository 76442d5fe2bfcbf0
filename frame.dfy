/**
 * The per-access-unit packet tracker: the packets of one RTP timestamp,
 * kept by sequence number, and the test of whether they make up a whole
 * frame (a single NAL unit, an aggregate, or an FU-A start..end run).
 */
module FrameTracker {
  import opened Packets

  /** The publisher multiplies its timestamps by this (the 90 kHz RTP clock). */
  const H264StandardMultiplier: int := 9000

  /** Division of a Java `long` by 9000: it truncates toward zero. */
  function ConvertTimestamp(t: int): (r: int)
    ensures 0 <= t ==> 0 <= r && r * H264StandardMultiplier <= t < (r + 1) * H264StandardMultiplier
    ensures t < 0 ==> r <= 0 && (r - 1) * H264StandardMultiplier < t <= r * H264StandardMultiplier
  {
    if 0 <= t then t / H264StandardMultiplier else -((-t) / H264StandardMultiplier)
  }

  /** Converting reverts the publisher's multiplication, whatever the remainder. */
  lemma ConvertRevertsMultiplier(t: int, d: int)
    requires 0 <= t && 0 <= d < H264StandardMultiplier
    ensures ConvertTimestamp(t * H264StandardMultiplier + d) == t
  {
  }

  // ---------------------------------------------------------------------
  // Ascending key order, as the skip-list map iterates

  predicate Increasing(xs: seq<int>) {
    forall i, j :: 0 <= i < j < |xs| ==> xs[i] < xs[j]
  }

  function Min(ks: set<int>): (m: int)
    requires ks != {}
    ensures m in ks && forall k :: k in ks ==> m <= k
  {
    MinExists(ks);
    var m :| m in ks && forall k :: k in ks ==> m <= k;
    m
  }

  lemma {:induction false} MinExists(ks: set<int>)
    requires ks != {}
    ensures exists m :: m in ks && forall k :: k in ks ==> m <= k
    decreases |ks|
  {
    if forall k :: k !in ks {
      assert false;
    }
    var x :| x in ks;
    if ks != {x} {
      var rest := ks - {x};
      MinExists(rest);
      var m :| m in rest && forall k :: k in rest ==> m <= k;
      var least := if x < m then x else m;
      assert least in ks && forall k :: k in ks ==> least <= k by {
        forall k | k in ks
          ensures least <= k
        {
          if k != x {
            assert k in rest;
          }
        }
      }
    } else {
      assert forall k :: k in ks ==> x <= k;
    }
  }

  /** The keys in ascending order, each once. */
  function SortedKeys(ks: set<int>): (r: seq<int>)
    ensures Increasing(r)
    ensures forall i :: 0 <= i < |r| ==> r[i] in ks
    ensures |r| == |ks|
    decreases |ks|
  {
    if ks == {} then []
    else
      var m := Min(ks);
      [m] + SortedKeys(ks - {m})
  }

  /** Every key appears in the sorted keys. */
  lemma {:induction false} SortedKeysComplete(ks: set<int>)
    ensures forall k :: k in ks ==> k in SortedKeys(ks)
    decreases |ks|
  {
    if ks != {} {
      var m := Min(ks);
      SortedKeysComplete(ks - {m});
      assert SortedKeys(ks) == [m] + SortedKeys(ks - {m});
    }
  }

  /** Two ascending sequences with the same elements are the same sequence. */
  lemma {:induction false} SortedUnique(a: seq<int>, b: seq<int>)
    requires Increasing(a) && Increasing(b)
    requires |a| == |b| && forall k :: k in a <==> k in b
    ensures a == b
    decreases |a|
  {
    if a != [] {
      assert a[0] == b[0] by {
        assert a[0] in a && b[0] in b;
        assert a[0] in b && b[0] in a;
      }
      forall k ensures k in a[1..] <==> k in b[1..] {
        if k in a[1..] {
          assert k in b && a[0] < k;
        }
        if k in b[1..] {
          assert k in a && b[0] < k;
        }
      }
      SortedUnique(a[1..], b[1..]);
      assert a == [a[0]] + a[1..] && b == [b[0]] + b[1..];
    }
  }

  /** The sorted keys of `ks` are the ascending sequence holding exactly them. */
  lemma SortedKeysAre(ks: set<int>, xs: seq<int>)
    requires Increasing(xs) && |xs| == |ks| && forall k :: k in xs <==> k in ks
    ensures SortedKeys(ks) == xs
  {
    SortedKeysComplete(ks);
    SortedUnique(SortedKeys(ks), xs);
  }

  /** Every entry is filed under its own packet's sequence number. */
  predicate KeyedBySeqNum(m: map<int, Packet>) {
    forall k :: k in m ==> m[k].seqNum == k
  }

  /** The packets filed under `ks`, in that order. */
  function PacketsAt(m: map<int, Packet>, ks: seq<int>): (r: seq<Packet>)
    requires forall i :: 0 <= i < |ks| ==> ks[i] in m
    ensures |r| == |ks| && forall i :: 0 <= i < |r| ==> r[i] == m[ks[i]]
  {
    if ks == [] then [] else [m[ks[0]]] + PacketsAt(m, ks[1..])
  }

  /** The packets in ascending sequence-number order, one per entry. */
  function Ordered(m: map<int, Packet>): (r: seq<Packet>)
    requires KeyedBySeqNum(m)
    ensures |r| == |m|
  {
    PacketsAt(m, SortedKeys(m.Keys))
  }

  /** Sequence numbers strictly increase along `ps`. */
  predicate Ascending(ps: seq<Packet>) {
    forall i, j :: 0 <= i < j < |ps| ==> ps[i].seqNum < ps[j].seqNum
  }

  /**
   * The ordered packets are exactly the entries: each is filed under its own
   * number, every entry appears, and the numbers strictly ascend.
   */
  lemma OrderedIsSorted(m: map<int, Packet>)
    requires KeyedBySeqNum(m)
    ensures forall i :: 0 <= i < |Ordered(m)| ==> Ordered(m)[i].seqNum in m && m[Ordered(m)[i].seqNum] == Ordered(m)[i]
    ensures forall k :: k in m ==> m[k] in Ordered(m)
    ensures Ascending(Ordered(m))
  {
    var r := Ordered(m);
    assert forall i :: 0 <= i < |r| ==> r[i].seqNum in m && m[r[i].seqNum] == r[i] by {
      OrderedAt(m);
    }
    assert Ascending(r) by {
      OrderedAt(m);
    }
    assert forall k :: k in m ==> m[k] in r by {
      OrderedAt(m);
      SortedKeysComplete(m.Keys);
      var ks := SortedKeys(m.Keys);
      forall k | k in m
        ensures m[k] in r
      {
        var i :| 0 <= i < |ks| && ks[i] == k;
        assert r[i] == m[k];
      }
    }
  }

  /** The i-th ordered packet is the entry under the i-th smallest key. */
  lemma OrderedAt(m: map<int, Packet>)
    requires KeyedBySeqNum(m)
    ensures var ks := SortedKeys(m.Keys);
      forall i :: 0 <= i < |ks| ==> Ordered(m)[i] == m[ks[i]] && Ordered(m)[i].seqNum == ks[i]
  {
    assert Ordered(m) == PacketsAt(m, SortedKeys(m.Keys));
  }

  // ---------------------------------------------------------------------
  // The completion scan

  /** A packet that ends the scan: a single unit, an aggregate, or an end fragment. */
  predicate Decisive(p: Packet) {
    p.nalType != NotFull || p.isEnd
  }

  /**
   * The scan of `isCompleted` from index `i`, with `startSeqNum` the
   * sequence number of the most recent start fragment (or -1).
   */
  function Scan(ps: seq<Packet>, i: nat, size: int, startSeqNum: int): bool
    requires i <= |ps|
    decreases |ps| - i
  {
    if i == |ps| then false
    else
      var p := ps[i];
      match p.nalType
      case Full => true
      case Stapa => true
      case NotFull =>
        var s := if p.isStart then p.seqNum else startSeqNum;
        if p.isEnd then s != -1 && p.seqNum - s + 1 == size
        else Scan(ps, i + 1, size, s)
  }

  /** Whether the frame with these packets counts as complete. */
  function Completed(m: map<int, Packet>): bool
    requires KeyedBySeqNum(m)
  {
    Scan(Ordered(m), 0, |m|, -1)
  }

  /** A single NAL unit or an aggregate met before any end fragment completes the frame. */
  lemma {:induction false} WholeBeforeEndCompletes(ps: seq<Packet>, i: nat, size: int, startSeqNum: int, w: nat)
    requires i <= w < |ps|
    requires ps[w].nalType != NotFull
    requires forall j :: i <= j < w ==> !Decisive(ps[j])
    ensures Scan(ps, i, size, startSeqNum)
    decreases w - i
  {
    if i < w {
      var s := if ps[i].isStart then ps[i].seqNum else startSeqNum;
      WholeBeforeEndCompletes(ps, i + 1, size, s, w);
    }
  }

  /** With no single unit, aggregate or end fragment the frame is never complete. */
  lemma {:induction false} NoDecisiveIncomplete(ps: seq<Packet>, i: nat, size: int, startSeqNum: int)
    requires i <= |ps|
    requires forall j :: i <= j < |ps| ==> !Decisive(ps[j])
    ensures !Scan(ps, i, size, startSeqNum)
    decreases |ps| - i
  {
    if i < |ps| {
      var s := if ps[i].isStart then ps[i].seqNum else startSeqNum;
      NoDecisiveIncomplete(ps, i + 1, size, s);
    }
  }

  /** The start fragment at `s` is the last one at or before `e`. */
  predicate LastStartAt(ps: seq<Packet>, s: int, e: int)
    requires 0 <= e < |ps|
  {
    0 <= s <= e && ps[s].isStart && forall t :: s < t <= e ==> !ps[t].isStart
  }

  /** Some start from `s` to `e` is the last one at or before `e`. */
  lemma {:induction false} LastStartExists(ps: seq<Packet>, s: nat, e: nat)
    requires s <= e < |ps| && ps[s].isStart
    ensures exists last :: s <= last && LastStartAt(ps, last, e)
    decreases e - s
  {
    if forall t :: s < t <= e ==> !ps[t].isStart {
      assert LastStartAt(ps, s, e);
    } else {
      var t :| s < t <= e && ps[t].isStart;
      LastStartExists(ps, t, e);
    }
  }

  /** With no start fragment up to the end fragment, the start carried in decides. */
  lemma {:induction false} ScanSkips(ps: seq<Packet>, i: nat, size: int, startSeqNum: int, e: nat)
    requires i <= e < |ps|
    requires ps[e].nalType == NotFull && ps[e].isEnd
    requires forall j :: i <= j < e ==> !Decisive(ps[j])
    requires forall j :: i <= j <= e ==> !ps[j].isStart
    ensures Scan(ps, i, size, startSeqNum) == (startSeqNum != -1 && ps[e].seqNum - startSeqNum + 1 == size)
    decreases e - i
  {
    if i < e {
      ScanSkips(ps, i + 1, size, startSeqNum, e);
    }
  }

  /** Reaching a start fragment forgets whatever start was carried in. */
  lemma {:induction false} ScanReachesStart(ps: seq<Packet>, i: nat, size: int, startSeqNum: int, s: nat)
    requires i <= s < |ps|
    requires ps[s].nalType == NotFull && ps[s].isStart
    requires forall j :: i <= j < s ==> !Decisive(ps[j])
    ensures Scan(ps, i, size, startSeqNum) == Scan(ps, s, size, -1)
    decreases s - i
  {
    if i < s {
      var carried := if ps[i].isStart then ps[i].seqNum else startSeqNum;
      ScanReachesStart(ps, i + 1, size, carried, s);
    }
  }

  /**
   * At the first end fragment (with no single unit or aggregate before it)
   * the frame is complete exactly when a start fragment was seen at or
   * before it and, counting from the most recent such start, the end's
   * sequence number is the start's plus the number of packets minus one.
   */
  lemma FirstEndDecides(ps: seq<Packet>, size: int, e: nat)
    requires e < |ps|
    requires ps[e].nalType == NotFull && ps[e].isEnd
    requires forall j :: 0 <= j < e ==> !Decisive(ps[j])
    ensures Scan(ps, 0, size, -1) <==>
      exists s :: LastStartAt(ps, s, e) && ps[e].seqNum - ps[s].seqNum + 1 == size
  {
    if s :| LastStartAt(ps, s, e) {
      assert ps[s].nalType == NotFull;
      ScanReachesStart(ps, 0, size, -1, s);
      if s < e {
        ScanSkips(ps, s + 1, size, ps[s].seqNum, e);
      }
      forall s' | LastStartAt(ps, s', e)
        ensures s' == s
      {
      }
    } else {
      forall j | 0 <= j <= e
        ensures !ps[j].isStart
      {
        if ps[j].isStart {
          LastStartExists(ps, j, e);
        }
      }
      ScanSkips(ps, 0, size, -1, e);
    }
  }

  // ---------------------------------------------------------------------
  // The completion test as its comment intends ("all expected packets are
  // present"): besides the span from the start to the end matching the
  // frame's size, as written, the span must match the packets seen from
  // that start to the end, so that no number inside it is missing.

  /** The scan with `count` the packets seen since the most recent start. */
  function ScanCounted(ps: seq<Packet>, i: nat, size: int, startSeqNum: int, count: int): bool
    requires i <= |ps|
    decreases |ps| - i
  {
    if i == |ps| then false
    else
      var p := ps[i];
      match p.nalType
      case Full => true
      case Stapa => true
      case NotFull =>
        var s := if p.isStart then p.seqNum else startSeqNum;
        var c := if p.isStart then 1 else count + 1;
        if p.isEnd then s != -1 && p.seqNum - s + 1 == size && p.seqNum - s + 1 == c
        else ScanCounted(ps, i + 1, size, s, c)
  }

  /** Whether the frame with these packets is complete, by the corrected test. */
  function CompletedGapFree(m: map<int, Packet>): bool
    requires KeyedBySeqNum(m)
  {
    ScanCounted(Ordered(m), 0, |m|, -1, 0)
  }

  /** The corrected scan only ever accepts what the scan as written accepts. */
  lemma {:induction false} ScanCountedNarrows(ps: seq<Packet>, i: nat, size: int, startSeqNum: int, count: int)
    requires i <= |ps|
    ensures ScanCounted(ps, i, size, startSeqNum, count) ==> Scan(ps, i, size, startSeqNum)
    decreases |ps| - i
  {
    if i < |ps| && ps[i].nalType == NotFull && !ps[i].isEnd {
      var s := if ps[i].isStart then ps[i].seqNum else startSeqNum;
      var c := if ps[i].isStart then 1 else count + 1;
      ScanCountedNarrows(ps, i + 1, size, s, c);
    }
  }

  /** A frame complete by the corrected test is complete by the test as written. */
  lemma CompletedGapFreeNarrows(m: map<int, Packet>)
    requires KeyedBySeqNum(m)
    ensures CompletedGapFree(m) ==> Completed(m)
  {
    ScanCountedNarrows(Ordered(m), 0, |m|, -1, 0);
  }

  lemma {:induction false} ScanCountedSkips(ps: seq<Packet>, i: nat, size: int, startSeqNum: int, count: int, e: nat)
    requires i <= e < |ps|
    requires ps[e].nalType == NotFull && ps[e].isEnd
    requires forall j :: i <= j < e ==> !Decisive(ps[j])
    requires forall j :: i <= j <= e ==> !ps[j].isStart
    ensures ScanCounted(ps, i, size, startSeqNum, count) ==
      (startSeqNum != -1 && ps[e].seqNum - startSeqNum + 1 == size
       && ps[e].seqNum - startSeqNum + 1 == count + (e - i + 1))
    decreases e - i
  {
    if i < e {
      ScanCountedSkips(ps, i + 1, size, startSeqNum, count + 1, e);
    }
  }

  lemma {:induction false} ScanCountedReachesStart(ps: seq<Packet>, i: nat, size: int, startSeqNum: int, count: int, s: nat)
    requires i <= s < |ps|
    requires ps[s].nalType == NotFull && ps[s].isStart
    requires forall j :: i <= j < s ==> !Decisive(ps[j])
    ensures ScanCounted(ps, i, size, startSeqNum, count) == ScanCounted(ps, s, size, -1, 0)
    decreases s - i
  {
    if i < s {
      var carried := if ps[i].isStart then ps[i].seqNum else startSeqNum;
      var c := if ps[i].isStart then 1 else count + 1;
      ScanCountedReachesStart(ps, i + 1, size, carried, c, s);
    }
  }

  /**
   * At the first end fragment, the corrected test accepts exactly when a
   * start was seen, the span from the most recent start to the end is the
   * frame's size, and it is also the number of packets from the one to the
   * other.
   */
  lemma FirstEndDecidesCounted(ps: seq<Packet>, size: int, e: nat)
    requires e < |ps|
    requires ps[e].nalType == NotFull && ps[e].isEnd
    requires forall j :: 0 <= j < e ==> !Decisive(ps[j])
    ensures ScanCounted(ps, 0, size, -1, 0) <==>
      exists s :: LastStartAt(ps, s, e) && ps[e].seqNum - ps[s].seqNum + 1 == size
                  && ps[e].seqNum - ps[s].seqNum == e - s
  {
    if s :| LastStartAt(ps, s, e) {
      assert ps[s].nalType == NotFull;
      ScanCountedReachesStart(ps, 0, size, -1, 0, s);
      if s < e {
        ScanCountedSkips(ps, s + 1, size, ps[s].seqNum, 1, e);
      }
      forall s' | LastStartAt(ps, s', e)
        ensures s' == s
      {
      }
    } else {
      forall j | 0 <= j <= e
        ensures !ps[j].isStart
      {
        if ps[j].isStart {
          LastStartExists(ps, j, e);
        }
      }
      ScanCountedSkips(ps, 0, size, -1, 0, e);
    }
  }

  /** In ascending order, `k` packets later means at least `k` numbers later. */
  lemma {:induction false} Spread(ps: seq<Packet>, a: nat, b: nat)
    requires Ascending(ps) && a <= b < |ps|
    ensures ps[b].seqNum - ps[a].seqNum >= b - a
    decreases b - a
  {
    if a < b {
      Spread(ps, a + 1, b);
    }
  }

  /** Some packet in `ps` carries sequence number `n`. */
  predicate Listed(ps: seq<Packet>, n: int) {
    exists j :: 0 <= j < |ps| && ps[j].seqNum == n
  }

  /** Just past a packet whose successor is more than one number on, a number is missing. */
  lemma GapAfter(ps: seq<Packet>, s: nat)
    requires Ascending(ps) && s + 1 < |ps|
    requires ps[s].seqNum + 1 != ps[s + 1].seqNum
    ensures !Listed(ps, ps[s].seqNum + 1)
  {
    var n := ps[s].seqNum + 1;
    forall k | 0 <= k < |ps|
      ensures ps[k].seqNum != n
    {
      if k < s {
        assert ps[k].seqNum < ps[s].seqNum;
      } else if s + 1 < k {
        assert ps[s + 1].seqNum < ps[k].seqNum;
      }
    }
  }

  /**
   * With the sequence numbers ascending, a span from `s` to `e` wider than
   * the packets between them misses a number inside it.
   */
  lemma {:induction false} SpanGap(ps: seq<Packet>, s: nat, e: nat) returns (n: int)
    requires Ascending(ps) && s <= e < |ps|
    requires ps[e].seqNum - ps[s].seqNum != e - s
    ensures ps[s].seqNum < n < ps[e].seqNum && !Listed(ps, n)
    decreases e - s
  {
    Spread(ps, s, e);
    if ps[s].seqNum + 1 == ps[s + 1].seqNum {
      n := SpanGap(ps, s + 1, e);
    } else {
      GapAfter(ps, s);
      Spread(ps, s + 1, e);
      n := ps[s].seqNum + 1;
    }
  }

  /**
   * With the sequence numbers ascending, the span from `s` to `e` equals
   * the number of packets between them exactly when every number in the
   * span is carried by some packet.
   */
  lemma SpanIffAllListed(ps: seq<Packet>, s: nat, e: nat)
    requires Ascending(ps) && s <= e < |ps|
    ensures ps[e].seqNum - ps[s].seqNum == e - s <==> AllListed(ps, ps[s].seqNum, ps[e].seqNum)
  {
    if ps[e].seqNum - ps[s].seqNum == e - s {
      forall n | ps[s].seqNum <= n <= ps[e].seqNum
        ensures Listed(ps, n)
      {
        var j := s + (n - ps[s].seqNum);
        Spread(ps, s, j);
        Spread(ps, j, e);
        assert ps[j].seqNum == n;
      }
    } else {
      var n := SpanGap(ps, s, e);
    }
  }

  /** A number is carried by one of a frame's ordered packets exactly when it is a key. */
  lemma ListedIffKey(m: map<int, Packet>, n: int)
    requires KeyedBySeqNum(m)
    ensures Listed(Ordered(m), n) <==> n in m
  {
    OrderedIsSorted(m);
    var ps := Ordered(m);
    if n in m {
      var j :| 0 <= j < |ps| && ps[j] == m[n];
    }
  }

  /** Every number from `lo` to `hi` is carried by some packet of `ps`. */
  predicate AllListed(ps: seq<Packet>, lo: int, hi: int) {
    forall n :: lo <= n <= hi ==> Listed(ps, n)
  }

  /** Every number from `lo` to `hi` is a key of `m`. */
  predicate AllKeys(m: map<int, Packet>, lo: int, hi: int) {
    forall n :: lo <= n <= hi ==> n in m
  }

  /**
   * In ascending order, at the first end fragment the corrected test accepts
   * exactly when a start was seen, the span from the most recent start to
   * the end is the frame's size, and every number in it is carried by some
   * packet.
   */
  lemma FirstEndDecidesListed(ps: seq<Packet>, size: int, e: nat)
    requires Ascending(ps) && e < |ps|
    requires ps[e].nalType == NotFull && ps[e].isEnd
    requires forall j :: 0 <= j < e ==> !Decisive(ps[j])
    ensures ScanCounted(ps, 0, size, -1, 0) <==>
      exists s :: LastStartAt(ps, s, e) && ps[e].seqNum - ps[s].seqNum + 1 == size
                  && AllListed(ps, ps[s].seqNum, ps[e].seqNum)
  {
    FirstEndDecidesCounted(ps, size, e);
    forall s | LastStartAt(ps, s, e)
      ensures ps[e].seqNum - ps[s].seqNum == e - s <==> AllListed(ps, ps[s].seqNum, ps[e].seqNum)
    {
      SpanIffAllListed(ps, s, e);
    }
  }

  /**
   * At the first end fragment of a frame, the corrected test accepts exactly
   * when a start was seen, the span from the most recent start to the end is
   * the number of packets in the frame, and every sequence number in that
   * span is in the frame.
   */
  lemma CompletedGapFreeIffAllPresent(m: map<int, Packet>, e: nat)
    requires KeyedBySeqNum(m)
    requires e < |m|
    requires Ordered(m)[e].nalType == NotFull && Ordered(m)[e].isEnd
    requires forall j :: 0 <= j < e ==> !Decisive(Ordered(m)[j])
    ensures CompletedGapFree(m) <==>
      exists s :: LastStartAt(Ordered(m), s, e) && Ordered(m)[e].seqNum - Ordered(m)[s].seqNum + 1 == |m|
                  && AllKeys(m, Ordered(m)[s].seqNum, Ordered(m)[e].seqNum)
  {
    var ps := Ordered(m);
    OrderedIsSorted(m);
    FirstEndDecidesListed(ps, |m|, e);
    forall s | LastStartAt(ps, s, e)
      ensures AllListed(ps, ps[s].seqNum, ps[e].seqNum) == AllKeys(m, ps[s].seqNum, ps[e].seqNum)
    {
      AllListedIffAllKeys(m, ps[s].seqNum, ps[e].seqNum);
    }
  }

  /** The keys of `m` are exactly the numbers from `lo` to `hi`. */
  ghost predicate KeysAreSpan(m: map<int, Packet>, lo: int, hi: int) {
    forall n :: n in m <==> lo <= n <= hi
  }

  /**
   * For a start at `s` and an end at `e` in key order, the span matching
   * the frame's size with no number of it missing makes the frame's keys
   * exactly the span.
   */
  lemma SizedSpanIsExact(m: map<int, Packet>, s: nat, e: nat)
    requires KeyedBySeqNum(m) && s <= e < |m|
    requires Ordered(m)[e].seqNum - Ordered(m)[s].seqNum + 1 == |m|
    requires AllKeys(m, Ordered(m)[s].seqNum, Ordered(m)[e].seqNum)
    ensures KeysAreSpan(m, Ordered(m)[s].seqNum, Ordered(m)[e].seqNum)
  {
    var ps := Ordered(m);
    var lo, hi := ps[s].seqNum, ps[e].seqNum;
    assert s == 0 && e == |ps| - 1 by {
      OrderedIsSorted(m);
      AllListedIffAllKeys(m, lo, hi);
      SpanIffAllListed(ps, s, e);
    }
    forall n | n in m
      ensures lo <= n <= hi
    {
      OrderedIsSorted(m);
      var j :| 0 <= j < |ps| && ps[j] == m[n];
      assert ps[j].seqNum == n;
    }
  }

  /** Conversely, keys that are exactly the span fill it and number the frame's packets. */
  lemma ExactSpanIsSized(m: map<int, Packet>, s: nat, e: nat)
    requires KeyedBySeqNum(m) && s <= e < |m|
    requires KeysAreSpan(m, Ordered(m)[s].seqNum, Ordered(m)[e].seqNum)
    ensures Ordered(m)[e].seqNum - Ordered(m)[s].seqNum + 1 == |m|
    ensures AllKeys(m, Ordered(m)[s].seqNum, Ordered(m)[e].seqNum)
  {
    var ps := Ordered(m);
    var lo, hi := ps[s].seqNum, ps[e].seqNum;
    assert s == 0 && e == |ps| - 1 by {
      OrderedIsSorted(m);
      assert ps[0].seqNum in m && ps[|ps| - 1].seqNum in m;
    }
    assert hi - lo == e - s by {
      OrderedIsSorted(m);
      AllListedIffAllKeys(m, lo, hi);
      SpanIffAllListed(ps, s, e);
    }
  }

  /**
   * The check the code's comment intends: at the first end fragment of a
   * frame, the corrected test accepts exactly when a start was seen and the
   * frame's sequence numbers are exactly those from the most recent start to
   * the end, none missing and none outside.
   */
  lemma CompletedGapFreeIffExactSpan(m: map<int, Packet>, e: nat)
    requires KeyedBySeqNum(m)
    requires e < |m|
    requires Ordered(m)[e].nalType == NotFull && Ordered(m)[e].isEnd
    requires forall j :: 0 <= j < e ==> !Decisive(Ordered(m)[j])
    ensures CompletedGapFree(m) <==>
      exists s :: LastStartAt(Ordered(m), s, e) && KeysAreSpan(m, Ordered(m)[s].seqNum, Ordered(m)[e].seqNum)
  {
    CompletedGapFreeIffAllPresent(m, e);
    forall s | LastStartAt(Ordered(m), s, e)
      ensures Ordered(m)[e].seqNum - Ordered(m)[s].seqNum + 1 == |m| && AllKeys(m, Ordered(m)[s].seqNum, Ordered(m)[e].seqNum)
              <==> KeysAreSpan(m, Ordered(m)[s].seqNum, Ordered(m)[e].seqNum)
    {
      if Ordered(m)[e].seqNum - Ordered(m)[s].seqNum + 1 == |m| && AllKeys(m, Ordered(m)[s].seqNum, Ordered(m)[e].seqNum) {
        SizedSpanIsExact(m, s, e);
      }
      if KeysAreSpan(m, Ordered(m)[s].seqNum, Ordered(m)[e].seqNum) {
        ExactSpanIsSized(m, s, e);
      }
    }
  }

  lemma AllListedIffAllKeys(m: map<int, Packet>, lo: int, hi: int)
    requires KeyedBySeqNum(m)
    ensures AllListed(Ordered(m), lo, hi) == AllKeys(m, lo, hi)
  {
    forall n | lo <= n <= hi
      ensures Listed(Ordered(m), n) <==> n in m
    {
      ListedIffKey(m, n);
    }
  }

  // ---------------------------------------------------------------------

  class Frame {
    /** The RTP timestamp of the frame's first packet, as received. */
    ghost const rtpTimestamp: int
    /** The RTP timestamp with the publisher's multiplier taken out. */
    const timestamp: int
    /** The packets received so far, by sequence number. */
    var packets: map<int, Packet>

    ghost predicate Valid()
      reads this
    {
      && KeyedBySeqNum(packets)
      && timestamp == ConvertTimestamp(rtpTimestamp)
    }

    /** A frame holding just its first packet. */
    constructor (packet: Packet)
      ensures Valid()
      ensures packets == map[packet.seqNum as int := packet]
      ensures rtpTimestamp == packet.timestamp && timestamp == ConvertTimestamp(packet.timestamp)
    {
      rtpTimestamp := packet.timestamp;
      timestamp := ConvertTimestamp(packet.timestamp);
      packets := map[packet.seqNum as int := packet];
    }

    /** Files a packet under its sequence number, replacing any packet already there. */
    method AddPacket(packet: Packet)
      requires Valid()
      modifies this
      ensures Valid()
      ensures packets == old(packets)[packet.seqNum as int := packet]
      ensures |packets| == if packet.seqNum as int in old(packets) then |old(packets)| else |old(packets)| + 1
      ensures forall k :: k in old(packets) && k != packet.seqNum as int ==> k in packets && packets[k] == old(packets)[k]
    {
      packets := packets[packet.seqNum as int := packet];
    }

    /** The packets in ascending sequence-number order, one per entry. */
    function GetPackets(): (r: seq<Packet>)
      requires Valid()
      reads this
      ensures |r| == |packets| && Ascending(r)
      ensures forall i :: 0 <= i < |r| ==> r[i].seqNum in packets && packets[r[i].seqNum] == r[i]
      ensures forall k :: k in packets ==> packets[k] in r
    {
      OrderedIsSorted(packets);
      Ordered(packets)
    }

    /** The first packet's RTP timestamp divided by 9000, truncated toward zero. */
    function ConvertedTimestamp(): (r: int)
      requires Valid()
      reads this
      ensures r == ConvertTimestamp(rtpTimestamp)
    {
      timestamp
    }

    /** Scans the packets in order; see `Scan`. */
    method IsCompleted() returns (b: bool)
      requires Valid()
      ensures b == Completed(packets)
    {
      // the entries in ascending key order
      var ps := Ordered(packets);
      var startSeqNum: int := -1;
      var i := 0;
      while i < |ps|
        invariant 0 <= i <= |ps|
        invariant Scan(ps, 0, |packets|, -1) == Scan(ps, i, |packets|, startSeqNum)
        decreases |ps| - i
      {
        var packet := ps[i];
        match packet.nalType {
          case Full =>
            return true;
          case NotFull =>
            if packet.isStart {
              startSeqNum := packet.seqNum;
            }
            if packet.isEnd {
              return startSeqNum != -1 && packet.seqNum - startSeqNum + 1 == |packets|;
            }
          case Stapa =>
            return true;
        }
        i := i + 1;
      }
      return false;
    }
  }

  // ---------------------------------------------------------------------
  // Examples

  function Fragment(seqNum: uint16, isStart: bool, isEnd: bool): Packet {
    Packet(NotFull, isStart, isEnd, 0, 0, 0, seqNum, 0, [])
  }

  function Whole(seqNum: uint16): Packet {
    Packet(Full, false, false, 0, 0, 0, seqNum, 0, [])
  }

  /** Start, middle and end fragments, all present, complete the frame. */
  lemma CompleteRunExample()
    ensures Completed(map[10 := Fragment(10, true, false), 11 := Fragment(11, false, false),
                          12 := Fragment(12, false, true)])
  {
    var m := map[10 := Fragment(10, true, false), 11 := Fragment(11, false, false),
                 12 := Fragment(12, false, true)];
    SortedKeysAre(m.Keys, [10, 11, 12]);
  }

  /** A missing middle fragment leaves the frame incomplete. */
  lemma MissingMiddleExample()
    ensures !Completed(map[10 := Fragment(10, true, false), 12 := Fragment(12, false, true)])
  {
    var m := map[10 := Fragment(10, true, false), 12 := Fragment(12, false, true)];
    SortedKeysAre(m.Keys, [10, 12]);
  }

  /** A single NAL unit ordered after an end fragment does not complete the frame. */
  lemma WholeAfterEndExample()
    ensures !Completed(map[10 := Fragment(10, false, true), 11 := Whole(11)])
  {
    var m := map[10 := Fragment(10, false, true), 11 := Whole(11)];
    SortedKeysAre(m.Keys, [10, 11]);
  }

  /**
   * The test as written accepts a frame with a hole: a stray fragment ahead
   * of the start makes the frame's size match the span from start to end
   * although number 8 never arrived.
   */
  lemma GapAcceptedExample()
    ensures var m := map[5 := Fragment(5, false, false), 7 := Fragment(7, true, false),
                         9 := Fragment(9, false, true)];
      Completed(m) && 8 !in m
  {
    var m := map[5 := Fragment(5, false, false), 7 := Fragment(7, true, false),
                 9 := Fragment(9, false, true)];
    SortedKeysAre(m.Keys, [5, 7, 9]);
  }

  /** The corrected test rejects the same frame. */
  lemma GapRejectedExample()
    ensures !CompletedGapFree(map[5 := Fragment(5, false, false), 7 := Fragment(7, true, false),
                                  9 := Fragment(9, false, true)])
  {
    var m := map[5 := Fragment(5, false, false), 7 := Fragment(7, true, false),
                 9 := Fragment(9, false, true)];
    SortedKeysAre(m.Keys, [5, 7, 9]);
  }
}
