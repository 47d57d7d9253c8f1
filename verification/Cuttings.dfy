/** When the way a stream is cut into reads matters: exact conditions on the stream, for
    reads of up to any limit. */
module Cuttings {
  import opened Arith
  import opened Codec
  import opened Framing
  import opened Ingest

  /** Whole frame `i` of the stream has a valid header. */
  predicate Right(s: seq<byte>, i: nat) {
    (i + 1) * MSG_SIZE <= |s| && HeaderOk(Frame(s, i))
  }

  ghost predicate Cutting(pieces: seq<seq<byte>>, s: seq<byte>, limit: nat) {
    Concat(pieces) == s && forall i :: 0 <= i < |pieces| ==> 0 < |pieces[i]| <= limit
  }

  /** Frames handled once a pass has seen the stream up to here, `k` being handled before. */
  function Count(s: seq<byte>, k: nat): (n: nat)
    requires k * MSG_SIZE <= |s|
    ensures k <= n && n * MSG_SIZE <= |s|
  {
    StreamRecordsDiffers(s[k * MSG_SIZE..]);
    k + StreamRecords(s[k * MSG_SIZE..])
  }

  /** Frames handled after all the reads. */
  function Progress(pieces: seq<seq<byte>>): (n: nat)
    ensures n * MSG_SIZE <= |Concat(pieces)|
  {
    if pieces == [] then 0 else Count(Concat(pieces), Progress(pieces[..|pieces| - 1]))
  }

  lemma RestFrames(s: seq<byte>, k: nat)
    requires k * MSG_SIZE <= |s|
    ensures Whole(s[k * MSG_SIZE..]) == Whole(s) - k
    ensures forall i :: 0 <= i < Whole(s) - k ==> Frame(s[k * MSG_SIZE..], i) == Frame(s, k + i)
  {
  }

  /** A pass whose last whole frame is right handles everything; any other handles up to the
      first frame that is not. */
  lemma CountIs(s: seq<byte>, k: nat)
    requires k * MSG_SIZE <= |s|
    ensures var n, whole := Count(s, k), Whole(s);
            && k <= n <= whole
            && (k == whole || Right(s, whole - 1) ==> n == whole)
            && (k < whole && !Right(s, whole - 1) ==> n < whole && !Right(s, n))
            && (!Right(s, n) && n < whole ==> forall i :: k <= i < n ==> Right(s, i))
  {
    hide HeaderOk;
    var rest := s[k * MSG_SIZE..];
    RestFrames(s, k);
    ValidPrefixExact(rest);
    forall i | k <= i < k + ValidPrefix(rest)
      ensures Right(s, i)
    {
      assert HeaderOk(Frame(rest, i - k));
    }
  }

  lemma SameFrames(t: seq<byte>, s: seq<byte>, i: nat)
    requires t <= s && i < Whole(t)
    ensures Right(t, i) <==> Right(s, i)
  {
    assert Frame(t, i) == Frame(s, i);
  }

  lemma ProgressAppend(pieces: seq<seq<byte>>, last: seq<byte>)
    ensures Concat(pieces + [last]) == Concat(pieces) + last
    ensures Progress(pieces) * MSG_SIZE <= |Concat(pieces) + last|
    ensures Progress(pieces + [last]) == Count(Concat(pieces) + last, Progress(pieces))
  {
    assert (pieces + [last])[..|pieces|] == pieces;
  }

  /** Until the guard fires the connection has handled exactly those frames. */
  lemma {:induction false} ProgressHandles(pieces: seq<seq<byte>>)
    requires ServeAll(pieces).cleared == 0
    ensures Handled(ServeAll(pieces), Concat(pieces), Progress(pieces))
  {
    hide *;
    if pieces == [] {
      NothingYet();
      NoProgress();
    } else {
      var front, last := pieces[..|pieces| - 1], pieces[|pieces| - 1];
      assert pieces == front + [last];
      Append(front, last);
      ClearsAddUp(ServeAll(front), last);
      ProgressHandles(front);
      PassHandles(ServeAll(front), Concat(front), Progress(front), last);
      ProgressAppend(front, last);
      PendingOf(ServeAll(front), Concat(front), Progress(front), last);
    }
  }

  lemma NoProgress()
    ensures Progress([]) == 0 && Concat([]) == []
  {
  }

  lemma PendingOf(c: State, s: seq<byte>, k: nat, last: seq<byte>)
    requires Handled(c, s, k)
    ensures k * MSG_SIZE <= |s + last|
    ensures Count(s + last, k) == k + StreamRecords(c.pending + last)
  {
    assert (s + last)[k * MSG_SIZE..] == c.pending + last;
  }

  /** Whatever was left pending fits the guard. */
  lemma PendingFits(pieces: seq<seq<byte>>)
    ensures |ServeAll(pieces).pending| <= PENDING_LIMIT
  {
    if pieces != [] {
      hide Emits, Keeps, StreamRecords;
    }
  }

  // ---------------------------------------------------------------------------
  // What the stream decides
  // ---------------------------------------------------------------------------

  /** The end of the last right frame among the first `n`. */
  function RightEnd(s: seq<byte>, n: nat): (e: nat)
    ensures e <= n && (e > 0 ==> Right(s, e - 1))
    ensures forall i :: e <= i < n ==> !Right(s, i)
  {
    if n == 0 || Right(s, n - 1) then n else RightEnd(s, n - 1)
  }

  /** The start of the run of right frames that ends at `e`. */
  function RunStart(s: seq<byte>, e: nat): (b: nat)
    ensures b <= e && (b > 0 ==> !Right(s, b - 1))
    ensures forall i :: b <= i < e ==> Right(s, i)
  {
    if e == 0 || !Right(s, e - 1) then e else RunStart(s, e - 1)
  }

  /** No frame from the first bad one on is right, or the last one is, or the last right
      frames are too many for one read to pass over. */
  predicate Settled(s: seq<byte>, limit: nat) {
    var e := RightEnd(s, Whole(s));
    e == Whole(s) || ValidPrefix(s) >= e || (e - RunStart(s, e)) * MSG_SIZE >= limit
  }

  /** Frames are handled only up to a right one or the first bad one. */
  lemma {:induction false} EndsAtRight(pieces: seq<seq<byte>>)
    ensures Progress(pieces) <= Whole(Concat(pieces))
    ensures Progress(pieces) > 0 ==> Right(Concat(pieces), Progress(pieces) - 1)
  {
    hide HeaderOk, Frame, Count, Right;
    if pieces != [] {
      var front, last := pieces[..|pieces| - 1], pieces[|pieces| - 1];
      assert pieces == front + [last];
      ProgressAppend(front, last);
      EndsAtRight(front);
      var k, s := Progress(front), Concat(pieces);
      CountIs(s, k);
      if k > 0 {
        SameFrames(Concat(front), s, k - 1);
      }
    }
  }

  /** A run of right frames that no read can pass over stops some read inside it. */
  lemma {:induction false} ReachesRun(s: seq<byte>, pieces: seq<seq<byte>>, b: nat, e: nat, limit: nat)
    requires Concat(pieces) <= s && e <= Whole(s) && b < e
    requires forall i :: 0 <= i < |pieces| ==> |pieces[i]| <= limit
    requires forall i :: b <= i < e ==> Right(s, i)
    requires limit <= (e - b) * MSG_SIZE
    ensures Whole(Concat(pieces)) > b ==> Progress(pieces) > b
  {
    hide HeaderOk, Frame, Count, Right;
    if pieces != [] {
      var front, last := pieces[..|pieces| - 1], pieces[|pieces| - 1];
      assert pieces == front + [last];
      ProgressAppend(front, last);
      ReachesRun(s, front, b, e, limit);
      var t := Concat(pieces);
      CountIs(t, Progress(front));
      var w := Whole(t);
      if w > b && Whole(Concat(front)) <= b {
        assert |last| <= limit;
        assert w <= e;
        SameFrames(t, s, w - 1);
      }
    }
  }

  /** On a settled stream every cutting handles the same frames: those up to the end of the
      last right one. */
  lemma SettledProgress(s: seq<byte>, pieces: seq<seq<byte>>, limit: nat)
    requires Cutting(pieces, s, limit) && Settled(s, limit)
    ensures Progress(pieces) == RightEnd(s, Whole(s))
  {
    hide HeaderOk, Frame, Count, Right, RightEnd, RunStart, ValidPrefix;
    var e, w := RightEnd(s, Whole(s)), Whole(s);
    EndsAtRight(pieces);
    if pieces != [] {
      var front, last := pieces[..|pieces| - 1], pieces[|pieces| - 1];
      assert pieces == front + [last];
      ProgressAppend(front, last);
      CountIs(s, Progress(front));
      if e < w {
        var b := RunStart(s, e);
        FirstBad(s);
        if ValidPrefix(s) < e && b < e {
          ReachesRun(s, pieces, b, e, limit);
          StopsBehind(s, b, e, Progress(pieces));
        } else {
          StopsBehind(s, 0, e, Progress(pieces));
        }
      }
    }
  }

  /** A bad frame from `b` on is no earlier than the end of a run that starts there. */
  lemma StopsBehind(s: seq<byte>, b: nat, e: nat, n: nat)
    requires b <= n && !Right(s, n) && forall i :: b <= i < e ==> Right(s, i)
    ensures n >= e
  {
  }

  lemma FirstBad(s: seq<byte>)
    ensures forall i :: 0 <= i < ValidPrefix(s) ==> Right(s, i)
    ensures ValidPrefix(s) <= Whole(s)
    ensures ValidPrefix(s) < Whole(s) ==> !Right(s, ValidPrefix(s))
  {
    ValidPrefixExact(s);
  }

  // ---------------------------------------------------------------------------
  // A cutting that leaves a bad frame waiting
  // ---------------------------------------------------------------------------

  /** Every run of right frames after `b` and before `e` is short enough for one read to
      pass over. */
  ghost predicate RunsShort(s: seq<byte>, b: nat, e: nat, limit: nat) {
    forall i: nat, j: nat :: b < i <= j < e && AllRight(s, i, j) ==> (j - i) * MSG_SIZE < limit
  }

  predicate AllRight(s: seq<byte>, i: nat, j: nat) {
    forall f :: i <= f < j ==> Right(s, f)
  }

  /** A read may end here: no right frame after `b` is the last whole one. */
  predicate Quiet(s: seq<byte>, b: nat, p: nat) {
    p <= |s| && (p / MSG_SIZE <= b + 1 || !Right(s, p / MSG_SIZE - 1))
  }

  lemma QuietCount(s: seq<byte>, b: nat, p: nat, k: nat)
    requires Quiet(s, b, p) && !Right(s, b) && (b + 1) * MSG_SIZE <= |s| && k <= b && k * MSG_SIZE <= p
    ensures Count(s[..p], k) <= b
  {
    hide HeaderOk, Frame, Count, Right;
    var t := s[..p];
    CountIs(t, k);
    var w := Whole(t);
    if w > b {
      SameFrames(t, s, b);
      SameFrames(t, s, w - 1);
    }
  }

  lemma OneMore(pieces: seq<seq<byte>>, s: seq<byte>, p: nat, q: nat)
    requires p <= q <= |s| && Concat(pieces) == s[..p]
    ensures Concat(pieces + [s[p..q]]) == s[..q]
    ensures Progress(pieces) * MSG_SIZE <= p && Progress(pieces + [s[p..q]]) == Count(s[..q], Progress(pieces))
  {
    hide Count;
    ProgressAppend(pieces, s[p..q]);
    assert s[..p] + s[p..q] == s[..q];
  }

  lemma CuttingMore(pieces: seq<seq<byte>>, s: seq<byte>, p: nat, q: nat, limit: nat)
    requires p < q <= |s| && Cutting(pieces, s[..p], limit) && q - p <= limit
    ensures Cutting(pieces + [s[p..q]], s[..q], limit)
  {
    hide Count;
    OneMore(pieces, s, p, q);
  }

  /** Where the read that passes over a run of right frames begins. */
  lemma JumpFrom(s: seq<byte>, b: nat, e: nat, limit: nat, p: nat) returns (from: nat)
    requires p <= |s| && 0 < p && Quiet(s, b, p) && !Quiet(s, b, p - 1)
    requires RunsShort(s, b, e, limit) && !Right(s, b) && p / MSG_SIZE <= e
    ensures from < p && Quiet(s, b, from) && p - from <= limit
  {
    hide HeaderOk, Frame;
    var t := (p - 1) / MSG_SIZE;
    var start := RunStart(s, t);
    assert p == (t + 1) * MSG_SIZE;
    assert start > b;
    assert AllRight(s, start, t);
    from := (start + 1) * MSG_SIZE - 1;
    assert from / MSG_SIZE == start;
  }

  /** With every run short, the stream can be cut so that bad frame `b` is never passed. */
  lemma {:induction false} NeverPassing(s: seq<byte>, b: nat, e: nat, limit: nat, p: nat) returns (pieces: seq<seq<byte>>)
    requires limit > 0 && !Right(s, b) && (b + 1) * MSG_SIZE <= |s| && RunsShort(s, b, e, limit)
    requires Quiet(s, b, p) && p / MSG_SIZE <= e
    ensures Cutting(pieces, s[..p], limit) && Progress(pieces) <= b
    decreases p
  {
    hide HeaderOk, Frame, Count, Right, Quiet, RunsShort;
    if p == 0 {
      pieces := [];
      NoProgress();
      assert s[..0] == [];
    } else {
      QuietWithin(s, b, p);
      var from: nat := p - 1;
      if !Quiet(s, b, p - 1) {
        from := JumpFrom(s, b, e, limit, p);
      }
      var before := NeverPassing(s, b, e, limit, from);
      CuttingMore(before, s, from, p, limit);
      OneMore(before, s, from, p);
      QuietCount(s, b, p, Progress(before));
      pieces := before + [s[from..p]];
    }
  }

  lemma QuietWithin(s: seq<byte>, b: nat, p: nat)
    ensures Quiet(s, b, p) ==> p <= |s|
  {
  }

  /** One byte at a time. */
  lemma {:induction false} ByteByByte(pieces: seq<seq<byte>>, s: seq<byte>, p: nat, limit: nat) returns (more: seq<seq<byte>>)
    requires limit > 0 && p <= |s| && Cutting(pieces, s[..p], limit)
    ensures Cutting(pieces + more, s, limit)
    ensures forall i :: 0 <= i < |more| ==> |more[i]| == 1
    decreases |s| - p
  {
    if p == |s| {
      more := [];
      assert pieces + [] == pieces && s[..p] == s;
    } else {
      CuttingMore(pieces, s, p, p + 1, limit);
      var rest := ByteByByte(pieces + [s[p..p + 1]], s, p + 1, limit);
      more := [s[p..p + 1]] + rest;
      assert pieces + more == pieces + [s[p..p + 1]] + rest;
    }
  }

  lemma Singles(s: seq<byte>, limit: nat) returns (pieces: seq<seq<byte>>)
    requires limit > 0
    ensures Cutting(pieces, s, limit) && forall i :: 0 <= i < |pieces| ==> |pieces[i]| == 1
  {
    assert s[..0] == [];
    NoProgress();
    pieces := ByteByByte([], s, 0, limit);
    assert [] + pieces == pieces;
  }

  // ---------------------------------------------------------------------------
  // When the cutting matters
  // ---------------------------------------------------------------------------

  /** No way of cutting the stream makes the guard fire. */
  ghost predicate GuardSafe(s: seq<byte>, limit: nat) {
    forall pieces :: Cutting(pieces, s, limit) ==> ServeAll(pieces).cleared == 0
  }

  ghost predicate CuttingsAgree(s: seq<byte>, limit: nat) {
    forall a, b :: Cutting(a, s, limit) && Cutting(b, s, limit) ==> ServeAll(a) == ServeAll(b)
  }

  /** The frames handled decide everything the connection has. */
  lemma ProgressDecides(a: seq<seq<byte>>, b: seq<seq<byte>>)
    requires Concat(a) == Concat(b) && ServeAll(a).cleared == 0 && ServeAll(b).cleared == 0
    ensures ServeAll(a) == ServeAll(b) <==> Progress(a) == Progress(b)
  {
    hide ServeAll, Concat, Progress, DecodeAll;
    ProgressHandles(a);
    ProgressHandles(b);
  }

  lemma ShortAfter(s: seq<byte>, b: nat, e: nat, w: nat, i: nat, j: nat)
    requires b <= i <= j < w && AllRight(s, i, j)
    requires forall f :: e <= f < w ==> !Right(s, f)
    ensures j <= e || i == j
  {
    hide Right, AllRight;
    if e < j && i < j {
      NotAcross(s, i, j, j - 1);
    }
  }

  /** A stream that is not settled has a bad frame followed by short runs of right ones, and
      ends badly. */
  lemma UnsettledShape(s: seq<byte>, limit: nat)
    requires limit > 0 && !Settled(s, limit)
    ensures var e := RightEnd(s, Whole(s));
            var b := RunStart(s, e);
            && 0 < b < e < Whole(s) && !Right(s, b - 1) && !Right(s, Whole(s) - 1)
            && RunsShort(s, b - 1, Whole(s), limit) && Quiet(s, b - 1, |s|)
  {
    hide HeaderOk, Frame, Right, AllRight, RightEnd, RunStart, ValidPrefix;
    FirstBad(s);
    var e := RightEnd(s, Whole(s));
    var b := RunStart(s, e);
    assert b > 0;
    forall i: nat, j: nat | b - 1 < i <= j < Whole(s) && AllRight(s, i, j)
      ensures (j - i) * MSG_SIZE < limit
    {
      ShortAfter(s, b, e, Whole(s), i, j);
    }
  }

  /** An unsettled stream has one cutting that handles the last right frame and one that
      never passes the bad frame before it. */
  lemma UnsettledDiffers(s: seq<byte>, limit: nat) returns (a: seq<seq<byte>>, b: seq<seq<byte>>)
    requires limit > 0 && !Settled(s, limit)
    ensures Cutting(a, s, limit) && Cutting(b, s, limit) && Progress(a) != Progress(b)
  {
    hide HeaderOk, Frame, Right, RightEnd, RunStart, Settled, Progress, Quiet, RunsShort;
    var e := RightEnd(s, Whole(s));
    var start := RunStart(s, e);
    UnsettledShape(s, limit);
    a := Singles(s, limit);
    ReachesRun(s, a, start, e, 1);
    b := NeverPassing(s, start - 1, Whole(s), limit, |s|);
    assert s[..|s|] == s;
  }

  /** All cuttings of a stream into reads of up to `limit` bytes end in the same state (the
      records sent, the bytes pending and the counters) if and only if: no frame from the
      first bad one on has a right header; or the last whole frame has; or the last right
      ones are more than one read can pass over. */
  lemma CuttingsAgreeIff(s: seq<byte>, limit: nat)
    requires limit > 0 && !Overlong(s, limit)
    ensures CuttingsAgree(s, limit) <==> Settled(s, limit)
  {
    hide Overlong, HeaderOk, Frame, Right, RightEnd, RunStart, Settled, Progress, ServeAll, Concat;
    GuardFiresIff(s, limit);
    if Settled(s, limit) {
      forall a, b | Cutting(a, s, limit) && Cutting(b, s, limit)
        ensures ServeAll(a) == ServeAll(b)
      {
        SettledProgress(s, a, limit);
        SettledProgress(s, b, limit);
        ProgressDecides(a, b);
      }
    } else {
      var a, b := UnsettledDiffers(s, limit);
      ProgressDecides(a, b);
    }
  }

  // ---------------------------------------------------------------------------
  // When the guard fires
  // ---------------------------------------------------------------------------

  /** Two bad frames with more than 1 MiB from the first up to the last byte before a frame
      follows the second, and between them only runs that one read can pass over. */
  ghost predicate Overlong(s: seq<byte>, limit: nat) {
    exists b: nat, e: nat :: Blocks(s, b, e, limit)
  }

  ghost predicate Blocks(s: seq<byte>, b: nat, e: nat, limit: nat) {
    && b < e <= Whole(s) && !Right(s, b) && !Right(s, e - 1) && RunsShort(s, b, e, limit)
    && Min(|s|, e * MSG_SIZE + MSG_SIZE - 1) > b * MSG_SIZE + PENDING_LIMIT
  }

  /** What waits behind the frames handled: nothing, or a bad frame, runs that were passed
      over, and a bad frame. */
  ghost predicate Waiting(t: seq<byte>, k: nat, limit: nat) {
    k <= Whole(t)
    && (k < Whole(t) ==> !Right(t, k) && !Right(t, Whole(t) - 1) && RunsShort(t, k, Whole(t), limit))
  }

  lemma SameRuns(t: seq<byte>, s: seq<byte>, i: nat, j: nat)
    requires t <= s && j <= Whole(t)
    ensures AllRight(t, i, j) <==> AllRight(s, i, j)
  {
    hide HeaderOk, Frame, Right;
    forall f: nat | i <= f < j
      ensures Right(t, f) <==> Right(s, f)
    {
      SameFrames(t, s, f);
    }
  }

  lemma NewRunShort(t: seq<byte>, last: seq<byte>, i: nat, j: nat)
    ensures Whole(t) <= i <= j < Whole(t + last) ==> (j - i) * MSG_SIZE < |last|
  {
  }

  lemma NotAcross(s: seq<byte>, i: nat, j: nat, f: nat)
    ensures i <= f < j && !Right(s, f) ==> !AllRight(s, i, j)
  {
  }

  lemma RunsGrow(t: seq<byte>, last: seq<byte>, k: nat, n: nat, limit: nat)
    requires Waiting(t, k, limit) && |last| <= limit && k <= n < Whole(t + last)
    requires k < Whole(t) ==> n == k
    ensures RunsShort(t + last, n, Whole(t + last), limit)
  {
    hide HeaderOk, Frame, Right, AllRight;
    var s := t + last;
    if k < Whole(t) {
      SameFrames(t, s, Whole(t) - 1);
    }
    forall i: nat, j: nat | n < i <= j < Whole(s) && AllRight(s, i, j)
      ensures (j - i) * MSG_SIZE < limit
    {
      if j < Whole(t) {
        SameRuns(t, s, i, j);
      } else if i >= Whole(t) {
        NewRunShort(t, last, i, j);
      } else if j > Whole(t) - 1 {
        NotAcross(s, i, j, Whole(t) - 1);
      }
    }
  }

  /** Until the guard fires, every cutting leaves waiting only what this says. */
  lemma {:induction false} AlwaysWaiting(pieces: seq<seq<byte>>, limit: nat)
    requires forall i :: 0 <= i < |pieces| ==> |pieces[i]| <= limit
    ensures Waiting(Concat(pieces), Progress(pieces), limit)
  {
    hide HeaderOk, Frame, Right, Count, RunsShort;
    if pieces == [] {
      NoProgress();
    } else {
      var front, last := pieces[..|pieces| - 1], pieces[|pieces| - 1];
      assert pieces == front + [last];
      AlwaysWaiting(front, limit);
      ProgressAppend(front, last);
      var t, k := Concat(front), Progress(front);
      var s, n := t + last, Progress(pieces);
      CountIs(s, k);
      if n < Whole(s) {
        if k < Whole(t) {
          SameFrames(t, s, k);
        }
        RunsGrow(t, last, k, n, limit);
      }
    }
  }

  /** The read at which the guard first fires. */
  lemma {:induction false} FirstFiring(pieces: seq<seq<byte>>) returns (n: nat)
    requires ServeAll(pieces).cleared > 0
    ensures n <= |pieces| && |Concat(pieces[..n])| > Progress(pieces[..n]) * MSG_SIZE + PENDING_LIMIT
  {
    hide Count, Progress, Pass, Emits, Keeps;
    var front, last := pieces[..|pieces| - 1], pieces[|pieces| - 1];
    assert pieces == front + [last];
    if ServeAll(front).cleared > 0 {
      n := FirstFiring(front);
      assert front[..n] == pieces[..n];
    } else {
      n := |pieces|;
      assert pieces[..n] == pieces;
      ProgressHandles(front);
      ProgressAppend(front, last);
      FiringLeaves(ServeAll(front), Concat(front), Progress(front), last);
    }
  }

  lemma FiringLeaves(c: State, t: seq<byte>, k: nat, last: seq<byte>)
    requires Handled(c, t, k) && Pass(c, last).cleared > 0
    ensures k * MSG_SIZE <= |t + last| && |t + last| > Count(t + last, k) * MSG_SIZE + PENDING_LIMIT
  {
    PendingOf(c, t, k, last);
    StreamRecordsDiffers(c.pending + last);
  }

  lemma PrefixOfConcat(pieces: seq<seq<byte>>, n: nat)
    requires n <= |pieces|
    ensures Concat(pieces[..n]) <= Concat(pieces)
    decreases |pieces|
  {
    if n == |pieces| {
      assert pieces[..n] == pieces;
    } else {
      assert pieces[..|pieces| - 1][..n] == pieces[..n];
      PrefixOfConcat(pieces[..|pieces| - 1], n);
    }
  }

  lemma RunsOfPrefix(t: seq<byte>, s: seq<byte>, b: nat, limit: nat)
    requires t <= s && RunsShort(t, b, Whole(t), limit)
    ensures RunsShort(s, b, Whole(t), limit)
  {
    hide HeaderOk, Frame, Right, AllRight;
    forall i: nat, j: nat | b < i <= j < Whole(t) && AllRight(s, i, j)
      ensures (j - i) * MSG_SIZE < limit
    {
      SameRuns(t, s, i, j);
    }
  }

  lemma FiringBlocks(s: seq<byte>, pieces: seq<seq<byte>>, limit: nat)
    requires Cutting(pieces, s, limit) && ServeAll(pieces).cleared > 0
    ensures Overlong(s, limit)
  {
    hide HeaderOk, Frame, Right, RunsShort, ServeAll, Progress;
    var n := FirstFiring(pieces);
    var t, k := Concat(pieces[..n]), Progress(pieces[..n]);
    AlwaysWaiting(pieces[..n], limit);
    PrefixOfConcat(pieces, n);
    RunsOfPrefix(t, s, k, limit);
    SameFrames(t, s, k);
    SameFrames(t, s, Whole(t) - 1);
    assert Blocks(s, k, Whole(t), limit);
  }

  lemma QuietAt(s: seq<byte>, b: nat, e: nat, p: nat)
    ensures b < e <= Whole(s) && !Right(s, e - 1) && p == Min(|s|, e * MSG_SIZE + MSG_SIZE - 1) ==>
              Quiet(s, b, p) && p / MSG_SIZE == e
  {
  }

  lemma {:induction false} ClearsStay(pieces: seq<seq<byte>>, more: seq<seq<byte>>)
    ensures ServeAll(pieces + more).cleared >= ServeAll(pieces).cleared
  {
    hide Pass;
    if more == [] {
      assert pieces + more == pieces;
    } else {
      var front, last := more[..|more| - 1], more[|more| - 1];
      assert pieces + more == (pieces + front) + [last];
      ClearsStay(pieces, front);
      Append(pieces + front, last);
      ClearsAddUp(ServeAll(pieces + front), last);
    }
  }

  lemma BlockedFires(s: seq<byte>, b: nat, e: nat, limit: nat) returns (pieces: seq<seq<byte>>)
    requires limit > 0 && Blocks(s, b, e, limit)
    ensures Cutting(pieces, s, limit) && ServeAll(pieces).cleared > 0
  {
    hide HeaderOk, Frame, Right, RunsShort, ServeAll, Progress, Quiet, Concat;
    var p: nat := Min(|s|, e * MSG_SIZE + MSG_SIZE - 1);
    QuietAt(s, b, e, p);
    var start := NeverPassing(s, b, e, limit, p);
    if ServeAll(start).cleared == 0 {
      ProgressHandles(start);
      PendingFits(start);
    }
    var more := ByteByByte(start, s, p, limit);
    ClearsStay(start, more);
    pieces := start + more;
  }

  /** The 1 MiB guard can fire on a stream read in pieces of up to `limit` bytes exactly
      when the stream has such a stretch. */
  lemma GuardFiresIff(s: seq<byte>, limit: nat)
    requires limit > 0
    ensures GuardSafe(s, limit) <==> !Overlong(s, limit)
  {
    hide Blocks, ServeAll, Concat;
    if Overlong(s, limit) {
      var b: nat, e: nat :| Blocks(s, b, e, limit);
      var pieces := BlockedFires(s, b, e, limit);
      assert Cutting(pieces, s, limit);
    } else {
      forall pieces | Cutting(pieces, s, limit)
        ensures ServeAll(pieces).cleared == 0
      {
        if ServeAll(pieces).cleared > 0 {
          FiringBlocks(s, pieces, limit);
        }
      }
    }
  }

  /** In particular not on a stream of up to 1 MiB, nor on one whose headers are all right. */
  lemma SafeStreams(s: seq<byte>, limit: nat)
    requires limit > 0 && (|s| <= 1_048_576 || AllHeadersOk(s))
    ensures GuardSafe(s, limit)
  {
    hide ServeAll, Concat, RunsShort, HeaderOk;
    GuardFiresIff(s, limit);
  }

  /** On a stream the guard is safe on, whatever the cutting, the records sent are those of a
      whole-record front part of the stream, bad spans skipped and every span counted once. */
  lemma SendsFront(s: seq<byte>, pieces: seq<seq<byte>>, limit: nat)
    requires limit > 0 && Cutting(pieces, s, limit) && !Overlong(s, limit)
    ensures Handled(ServeAll(pieces), s, Progress(pieces))
  {
    hide ServeAll, Concat, Overlong, Progress, Handled;
    GuardFiresIff(s, limit);
    ProgressHandles(pieces);
  }

  // ---------------------------------------------------------------------------
  // When the records sent depend on the cutting
  // ---------------------------------------------------------------------------

  ghost predicate SameRecords(s: seq<byte>, limit: nat) {
    forall a, b :: Cutting(a, s, limit) && Cutting(b, s, limit) ==> ServeAll(a).sent == ServeAll(b).sent
  }

  /** Some cutting never passes bad frame `b`: only runs that one read can pass over follow
      it, and the last whole frame is bad. */
  ghost predicate Sticks(s: seq<byte>, b: nat, limit: nat) {
    b < Whole(s) && !Right(s, b) && !Right(s, Whole(s) - 1) && RunsShort(s, b, Whole(s), limit)
  }

  /** No frame after such a bad one decodes. */
  ghost predicate NothingBehind(s: seq<byte>, limit: nat) {
    forall b: nat :: Sticks(s, b, limit) ==> DecodeAll(s[b * MSG_SIZE..]) == []
  }

  /** The frames left out decode to what is missing. */
  lemma SentIs(s: seq<byte>, pieces: seq<seq<byte>>, limit: nat)
    requires limit > 0 && Cutting(pieces, s, limit) && !Overlong(s, limit)
    ensures Progress(pieces) * MSG_SIZE <= |s|
    ensures DecodeAll(s) == ServeAll(pieces).sent + DecodeAll(s[Progress(pieces) * MSG_SIZE..])
  {
    hide ServeAll, Overlong, Progress, DecodeAll, Concat;
    SendsFront(s, pieces, limit);
    DecodeAllSplit(s, Progress(pieces));
  }

  lemma NoneLeft(s: seq<byte>, k: nat)
    requires k * MSG_SIZE <= |s| && forall i :: k <= i < Whole(s) ==> !Right(s, i)
    ensures DecodeAll(s[k * MSG_SIZE..]) == []
  {
    hide HeaderOk, DecodeAll;
    var rest := s[k * MSG_SIZE..];
    RestFrames(s, k);
    forall i | 0 <= i < Whole(rest)
      ensures !HeaderOk(Frame(rest, i))
    {
      assert !Right(s, k + i);
    }
    BadHeadersDecodeNothing(rest);
  }

  /** Reads of one byte send every record of the stream. */
  lemma SinglesSendAll(s: seq<byte>, limit: nat) returns (pieces: seq<seq<byte>>)
    requires limit > 0 && !Overlong(s, limit)
    ensures Cutting(pieces, s, limit) && ServeAll(pieces).sent == DecodeAll(s)
  {
    hide HeaderOk, Frame, Right, RightEnd, RunStart, Overlong, Progress, ServeAll, Concat, DecodeAll;
    pieces := Singles(s, limit);
    SettledProgress(s, pieces, 1);
    NoneLeft(s, RightEnd(s, Whole(s)));
    SentIs(s, pieces, limit);
  }

  /** What sticks behind bad frame `b` holds everything from there on. */
  lemma StuckMisses(s: seq<byte>, b: nat, limit: nat) returns (pieces: seq<seq<byte>>)
    requires limit > 0 && !Overlong(s, limit) && Sticks(s, b, limit) && DecodeAll(s[b * MSG_SIZE..]) != []
    ensures Cutting(pieces, s, limit) && ServeAll(pieces).sent != DecodeAll(s)
  {
    hide HeaderOk, Frame, Right, RunsShort, Overlong, Progress, ServeAll, Concat, DecodeAll;
    pieces := NeverPassing(s, b, Whole(s), limit, |s|);
    assert s[..|s|] == s;
    SentIs(s, pieces, limit);
    var k := Progress(pieces);
    var rest := s[k * MSG_SIZE..];
    DecodeAllSplit(rest, b - k);
    assert rest[(b - k) * MSG_SIZE..] == s[b * MSG_SIZE..];
  }

  /** All cuttings of a stream into reads of up to `limit` bytes send the same records,
      which are then all that decode, if and only if no frame decodes behind a bad one that
      some cutting never passes. */
  lemma SameRecordsIff(s: seq<byte>, limit: nat)
    requires limit > 0 && !Overlong(s, limit)
    ensures SameRecords(s, limit) <==> NothingBehind(s, limit)
    ensures SameRecords(s, limit) <==> forall pieces :: Cutting(pieces, s, limit) ==> ServeAll(pieces).sent == DecodeAll(s)
  {
    hide HeaderOk, Frame, Right, RunsShort, Overlong, Progress, ServeAll, Concat, DecodeAll;
    var all := SinglesSendAll(s, limit);
    if NothingBehind(s, limit) {
      forall pieces | Cutting(pieces, s, limit)
        ensures ServeAll(pieces).sent == DecodeAll(s)
      {
        SendsAll(s, pieces, limit);
      }
    } else {
      var b: nat :| Sticks(s, b, limit) && DecodeAll(s[b * MSG_SIZE..]) != [];
      var stuck := StuckMisses(s, b, limit);
    }
  }

  lemma SendsAll(s: seq<byte>, pieces: seq<seq<byte>>, limit: nat)
    requires limit > 0 && Cutting(pieces, s, limit) && !Overlong(s, limit) && NothingBehind(s, limit)
    ensures ServeAll(pieces).sent == DecodeAll(s)
  {
    hide HeaderOk, Frame, Right, RunsShort, Overlong, Progress, ServeAll, Concat, DecodeAll;
    AlwaysWaiting(pieces, limit);
    SentIs(s, pieces, limit);
    var k := Progress(pieces);
    if k == Whole(s) {
      NoneLeft(s, k);
    } else {
      assert Sticks(s, k, limit);
    }
  }

  // ---------------------------------------------------------------------------
  // With the guard
  // ---------------------------------------------------------------------------

  predicate Fronts(parts: seq<seq<byte>>, ks: seq<nat>) {
    |parts| == |ks| && forall i :: 0 <= i < |parts| ==> ks[i] * MSG_SIZE <= |parts[i]|
  }

  /** The records of a whole-record front of each part. */
  function SentBy(parts: seq<seq<byte>>, ks: seq<nat>): seq<Msg>
    requires Fronts(parts, ks)
  {
    if parts == [] then []
    else
      var n := |parts| - 1;
      SentBy(parts[..n], ks[..n]) + DecodeAll(parts[n][..ks[n] * MSG_SIZE])
  }

  ghost predicate InParts(c: State, parts: seq<seq<byte>>, ks: seq<nat>) {
    && Fronts(parts, ks) && |parts| == c.cleared + 1 && c.sent == SentBy(parts, ks)
    && c.pending == parts[c.cleared][ks[c.cleared] * MSG_SIZE..]
  }

  lemma SentByLast(parts: seq<seq<byte>>, ks: seq<nat>, part: seq<byte>, k: nat)
    requires Fronts(parts, ks) && k * MSG_SIZE <= |part|
    ensures Fronts(parts + [part], ks + [k])
    ensures SentBy(parts + [part], ks + [k]) == SentBy(parts, ks) + DecodeAll(part[..k * MSG_SIZE])
  {
    assert (parts + [part])[..|parts|] == parts && (ks + [k])[..|ks|] == ks;
  }

  lemma ConcatLast(parts: seq<seq<byte>>, part: seq<byte>)
    ensures Concat(parts + [part]) == Concat(parts) + part
  {
    assert (parts + [part])[..|parts|] == parts;
  }

  /** What the last part has to do with the connection. */
  lemma LastPart(c: State, front: seq<seq<byte>>, ks: seq<nat>, part: seq<byte>, k: nat)
    ensures InParts(c, front + [part], ks + [k]) <==>
              && Fronts(front, ks) && k * MSG_SIZE <= |part| && |front| == c.cleared
              && c.sent == SentBy(front, ks) + DecodeAll(part[..k * MSG_SIZE])
              && c.pending == part[k * MSG_SIZE..]
  {
    hide DecodeAll, SentBy;
    if Fronts(front + [part], ks + [k]) {
      PartAt(front, ks, part, k);
    }
    if Fronts(front, ks) && k * MSG_SIZE <= |part| {
      SentByLast(front, ks, part, k);
    }
  }

  /** One pass in the last part, with or without the guard firing. */
  lemma PassInParts(c: State, front: seq<seq<byte>>, ks: seq<nat>, part: seq<byte>, k: nat, chunk: seq<byte>)
    returns (parts: seq<seq<byte>>, counts: seq<nat>)
    requires InParts(c, front + [part], ks + [k])
    ensures InParts(Pass(c, chunk), parts, counts)
    ensures Concat(parts) == Concat(front + [part]) + chunk
  {
    hide DecodeAll, StreamRecords, Emits, Keeps, SentBy, Concat, InParts, Fronts;
    LastPart(c, front, ks, part, k);
    EmitsExtends(part, k, chunk);
    var n := k + StreamRecords(c.pending + chunk);
    SentByLast(front, ks, part + chunk, n);
    ConcatLast(front, part);
    ConcatLast(front, part + chunk);
    parts, counts := front + [part + chunk], ks + [n];
    if |Keeps(c.pending + chunk)| > PENDING_LIMIT {
      LastPart(Pass(c, chunk), parts, counts, [], 0);
      ConcatLast(parts, []);
      NothingSent();
      parts, counts := parts + [[]], counts + [0];
    } else {
      LastPart(Pass(c, chunk), front, ks, part + chunk, n);
    }
  }

  lemma PartAt(front: seq<seq<byte>>, ks: seq<nat>, part: seq<byte>, k: nat)
    requires Fronts(front + [part], ks + [k])
    ensures Fronts(front, ks) && k * MSG_SIZE <= |part|
  {
    assert |ks| == |front|;
    assert forall i :: 0 <= i < |front| ==> (front + [part])[i] == front[i] && (ks + [k])[i] == ks[i];
    assert (front + [part])[|front|] == part && (ks + [k])[|front|] == k;
  }

  lemma NothingSent()
    ensures forall b: seq<byte> :: DecodeAll(b[..0 * MSG_SIZE]) == []
  {
  }

  lemma NoParts()
    ensures InParts(Fresh, [[]], [0]) && Concat([[]]) == [] && ServeAll([]) == Fresh && Concat([]) == []
  {
    var one: seq<seq<byte>>, none: seq<nat> := [[]], [0];
    assert one[..0] == [] && none[..0] == [];
    NothingSent();
  }

  /** Every run, guard and all: the stream falls into one part more than the guard fired, and
      what is sent is the records of a whole-record front of each part. */
  lemma {:induction false} SendsFronts(pieces: seq<seq<byte>>) returns (parts: seq<seq<byte>>, ks: seq<nat>)
    ensures Concat(parts) == Concat(pieces) && InParts(ServeAll(pieces), parts, ks)
  {
    hide *;
    if pieces == [] {
      NoParts();
      parts, ks := [[]], [0];
    } else {
      var front, last := pieces[..|pieces| - 1], pieces[|pieces| - 1];
      assert pieces == front + [last];
      Append(front, last);
      var before, counts := SendsFronts(front);
      PartsCount(ServeAll(front), before, counts);
      var n := |before| - 1;
      assert before == before[..n] + [before[n]] && counts == counts[..n] + [counts[n]];
      parts, ks := PassInParts(ServeAll(front), before[..n], counts[..n], before[n], counts[n], last);
    }
  }

  lemma PartsCount(c: State, parts: seq<seq<byte>>, ks: seq<nat>)
    ensures InParts(c, parts, ks) ==> |parts| == |ks| == c.cleared + 1
  {
  }
}
