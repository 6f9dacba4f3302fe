/**
 * What the blocking frame reader sees and returns, as functions of the
 * sequence of results of its one-byte reads and of a step budget.
 *
 * The serial link is a queue of read results: Some(b) when read(1) returned
 * the byte b, None when it returned nothing; once the queue is exhausted every
 * read returns nothing. The wall clock becomes a budget: after the k-th read
 * (counting from 1) the deadline has passed exactly when k > budget.
 */
module Scanner {
  import opened Outcomes
  import opened Frame

  /** The frame the reader assembled and how many reads that took, or the timeout. */
  datatype ScanResult = Framed(frame: seq<byte>, used: nat) | TimedOut

  /** The result of the (k+1)-th read. */
  function ReadAt(incoming: seq<Option<byte>>, k: nat): Option<byte> {
    if k < |incoming| then incoming[k] else None
  }

  /** The queue left after k reads. */
  function Drop(incoming: seq<Option<byte>>, k: nat): seq<Option<byte>> {
    if k <= |incoming| then incoming[k..] else []
  }

  /** The results of the reads made before the deadline. */
  function Reads(incoming: seq<Option<byte>>, budget: nat): (rs: seq<Option<byte>>)
    ensures |rs| == budget
    ensures forall k :: 0 <= k < budget ==> rs[k] == ReadAt(incoming, k)
  {
    seq(budget, k requires 0 <= k < budget => ReadAt(incoming, k))
  }

  /** A run of bytes arriving one per read, with no empty reads between them. */
  function Arrivals(bs: seq<byte>): (rs: seq<Option<byte>>)
    ensures |rs| == |bs| && forall k :: 0 <= k < |bs| ==> rs[k] == Some(bs[k])
  {
    seq(|bs|, k requires 0 <= k < |bs| => Some(bs[k]))
  }

  /** The buffer while the reader waits for the end marker. */
  predicate PartialFrame(buf: seq<byte>) {
    |buf| >= 1 && buf[0] == FrameStart && forall i :: 0 <= i < |buf| ==> buf[i] != FrameEnd
  }

  /** Starts with the start marker, ends with the end marker, and holds no other end marker. */
  predicate FrameShape(f: seq<byte>) {
    && |f| >= 2 && f[0] == FrameStart && f[|f| - 1] == FrameEnd
    && forall i :: 0 <= i < |f| - 1 ==> f[i] != FrameEnd
  }

  /**
   * First loop of the reader, from read k on: every read result other than
   * the start marker is discarded (an empty read counts as 0x00).
   */
  function Hunt(rs: seq<Option<byte>>, k: nat): (r: ScanResult)
    ensures r.Framed? ==> k < r.used <= |rs| && FrameShape(r.frame)
    decreases |rs| - k
  {
    if k >= |rs| then TimedOut
    else if rs[k] == Some(FrameStart) then Collect(rs, k + 1, [FrameStart])
    else Hunt(rs, k + 1)
  }

  /**
   * Second loop of the reader, from read k on: every byte read is appended to
   * buf, an empty read appends nothing, and the first end marker completes the frame.
   */
  function Collect(rs: seq<Option<byte>>, k: nat, buf: seq<byte>): (r: ScanResult)
    requires PartialFrame(buf)
    ensures r.Framed? ==>
      && k < r.used <= |rs| && FrameShape(r.frame)
      && |r.frame| > |buf| && r.frame[..|buf|] == buf
    decreases |rs| - k
  {
    if k >= |rs| then TimedOut
    else match rs[k]
      case None => Collect(rs, k + 1, buf)
      case Some(b) =>
        if b == FrameEnd then Framed(buf + [b], k + 1)
        else Collect(rs, k + 1, buf + [b])
  }

  /** The whole reader: the frame it returns within the budget, or the timeout. */
  function Scan(incoming: seq<Option<byte>>, budget: nat): (r: ScanResult)
    ensures r.Framed? ==> 1 <= r.used <= budget && FrameShape(r.frame)
  {
    Hunt(Reads(incoming, budget), 0)
  }

  /** Reads the reader makes: up to the end marker, or one past the budget when it times out. */
  function Consumed(scan: ScanResult, budget: nat): nat {
    match scan
    case Framed(_, n) => n
    case TimedOut => budget + 1
  }

  /** The bytes delivered by the reads from k on, empty reads left out. */
  function FeedFrom(rs: seq<Option<byte>>, k: nat): seq<byte>
    decreases |rs| - k
  {
    if k >= |rs| then []
    else (match rs[k] case Some(b) => [b] case None => []) + FeedFrom(rs, k + 1)
  }

  /** The byte stream the link delivers before the deadline. */
  function Delivered(incoming: seq<Option<byte>>, budget: nat): seq<byte> {
    FeedFrom(Reads(incoming, budget), 0)
  }

  /** j is the position of the first end marker in bs. */
  ghost predicate FirstEndAt(bs: seq<byte>, j: nat) {
    j < |bs| && bs[j] == FrameEnd && forall m :: 0 <= m < j ==> bs[m] != FrameEnd
  }

  /** bs[i..j+1] runs from the first start marker in bs to the first end marker after it. */
  ghost predicate FirstFrameAt(bs: seq<byte>, i: nat, j: nat) {
    && i < j < |bs| && bs[i] == FrameStart && bs[j] == FrameEnd
    && (forall m :: 0 <= m < i ==> bs[m] != FrameStart)
    && (forall m :: i < m < j ==> bs[m] != FrameEnd)
  }

  /** Dropping a leading byte other than the end marker from a stream moves its first end marker back by one. */
  lemma FirstEndTail(b: byte, rest: seq<byte>, j: nat)
    requires b != FrameEnd && FirstEndAt([b] + rest, j)
    ensures j >= 1 && FirstEndAt(rest, j - 1) && ([b] + rest)[..j + 1] == [b] + rest[..j]
  {
    var bs := [b] + rest;
    forall m | 0 <= m < j - 1 ensures rest[m] != FrameEnd {
      assert rest[m] == bs[m + 1];
    }
  }

  /** Prefixing a byte other than the end marker moves the first end marker on by one. */
  lemma FirstEndCons(b: byte, rest: seq<byte>, j: nat)
    requires b != FrameEnd && FirstEndAt(rest, j)
    ensures FirstEndAt([b] + rest, j + 1)
  {
    var bs := [b] + rest;
    forall m | 0 <= m < j + 1 ensures bs[m] != FrameEnd {
      if m > 0 { assert bs[m] == rest[m - 1]; }
    }
  }

  /** Dropping a leading byte other than the start marker moves the first frame back by one. */
  lemma FirstFrameTail(b: byte, rest: seq<byte>, i: nat, j: nat)
    requires b != FrameStart && FirstFrameAt([b] + rest, i, j)
    ensures i >= 1 && FirstFrameAt(rest, i - 1, j - 1) && ([b] + rest)[i..j + 1] == rest[i - 1..j]
  {
    var bs := [b] + rest;
    forall m | 0 <= m < i - 1 ensures rest[m] != FrameStart {
      assert rest[m] == bs[m + 1];
    }
    forall m | i - 1 < m < j - 1 ensures rest[m] != FrameEnd {
      assert rest[m] == bs[m + 1];
    }
  }

  /** Prefixing a byte other than the start marker moves the first frame on by one. */
  lemma FirstFrameCons(b: byte, rest: seq<byte>, i: nat, j: nat)
    requires b != FrameStart && FirstFrameAt(rest, i, j)
    ensures FirstFrameAt([b] + rest, i + 1, j + 1)
  {
    var bs := [b] + rest;
    forall m | 0 <= m < i + 1 ensures bs[m] != FrameStart {
      if m > 0 { assert bs[m] == rest[m - 1]; }
    }
    forall m | i + 1 < m < j + 1 ensures bs[m] != FrameEnd {
      assert bs[m] == rest[m - 1];
    }
  }

  /** A stream that starts with the start marker has its first frame at 0, ending at its first later end marker. */
  lemma FirstFrameAtHead(rest: seq<byte>, j: nat)
    ensures FirstFrameAt([FrameStart] + rest, 0, j + 1) <==> FirstEndAt(rest, j)
    ensures FirstEndAt(rest, j) ==> ([FrameStart] + rest)[0..j + 2] == [FrameStart] + rest[..j + 1]
  {
    var bs := [FrameStart] + rest;
    if FirstEndAt(rest, j) {
      forall m | 0 < m < j + 1 ensures bs[m] != FrameEnd {
        assert bs[m] == rest[m - 1];
      }
    }
    if FirstFrameAt(bs, 0, j + 1) {
      forall m | 0 <= m < j ensures rest[m] != FrameEnd {
        assert rest[m] == bs[m + 1];
      }
    }
  }

  /** The stream from read k on is the byte of read k, if any, followed by the stream from read k + 1 on. */
  lemma FeedFromStep(rs: seq<Option<byte>>, k: nat)
    requires k < |rs|
    ensures rs[k].None? ==> FeedFrom(rs, k) == FeedFrom(rs, k + 1)
    ensures rs[k].Some? ==> FeedFrom(rs, k) == [rs[k].value] + FeedFrom(rs, k + 1)
  {
  }

  /** Once the stream from read k on holds an end marker, Collect returns buf extended up to it. */
  lemma {:induction false} CollectFindsEnd(rs: seq<Option<byte>>, k: nat, buf: seq<byte>, j: nat)
    requires PartialFrame(buf) && FirstEndAt(FeedFrom(rs, k), j)
    ensures Collect(rs, k, buf).Framed?
    ensures Collect(rs, k, buf).frame == buf + FeedFrom(rs, k)[..j + 1]
    decreases |rs| - k
  {
    assert k < |rs|;
    FeedFromStep(rs, k);
    var rest := FeedFrom(rs, k + 1);
    match rs[k]
    case None =>
      CollectFindsEnd(rs, k + 1, buf, j);
    case Some(b) =>
      if b == FrameEnd {
        assert FeedFrom(rs, k)[0] == b;
        assert j == 0;
        assert FeedFrom(rs, k)[..1] == [b];
      } else {
        FirstEndTail(b, rest, j);
        CollectFindsEnd(rs, k + 1, buf + [b], j - 1);
        assert buf + [b] + rest[..j] == buf + ([b] + rest[..j]);
      }
  }

  /** Conversely, a frame from Collect ends at an end marker of the stream from read k on. */
  lemma {:induction false} CollectEndsAtFirstEnd(rs: seq<Option<byte>>, k: nat, buf: seq<byte>)
    requires PartialFrame(buf) && Collect(rs, k, buf).Framed?
    ensures exists j: nat :: FirstEndAt(FeedFrom(rs, k), j)
    decreases |rs| - k
  {
    FeedFromStep(rs, k);
    var rest := FeedFrom(rs, k + 1);
    match rs[k]
    case None =>
      CollectEndsAtFirstEnd(rs, k + 1, buf);
    case Some(b) =>
      if b == FrameEnd {
        assert FirstEndAt(FeedFrom(rs, k), 0);
      } else {
        CollectEndsAtFirstEnd(rs, k + 1, buf + [b]);
        var j: nat :| FirstEndAt(rest, j);
        FirstEndCons(b, rest, j);
      }
  }

  /** When read k brings the start marker, the first frame starts there and Hunt collects it up to its end. */
  lemma HuntAtStart(rs: seq<Option<byte>>, k: nat, i: nat, j: nat)
    requires k < |rs| && rs[k] == Some(FrameStart)
    requires FirstFrameAt(FeedFrom(rs, k), i, j)
    ensures Hunt(rs, k).Framed? && Hunt(rs, k).frame == FeedFrom(rs, k)[i..j + 1]
  {
    var rest := FeedFrom(rs, k + 1);
    FeedFromStep(rs, k);
    assert FeedFrom(rs, k)[0] == FrameStart;
    assert i == 0;
    FirstFrameAtHead(rest, j - 1);
    CollectFindsEnd(rs, k + 1, [FrameStart], j - 1);
  }

  /** An empty read leaves the stream, and so its first frame, as it is. */
  lemma FirstFrameSkipsEmpty(rs: seq<Option<byte>>, k: nat, i: nat, j: nat)
    requires k < |rs| && rs[k] == None
    requires FirstFrameAt(FeedFrom(rs, k), i, j)
    ensures FirstFrameAt(FeedFrom(rs, k + 1), i, j)
    ensures FeedFrom(rs, k)[i..j + 1] == FeedFrom(rs, k + 1)[i..j + 1]
  {
    assert FeedFrom(rs, k) == FeedFrom(rs, k + 1);
  }

  /** A read of a byte other than the start marker moves the first frame back by one. */
  lemma FirstFrameSkipsByte(rs: seq<Option<byte>>, k: nat, i: nat, j: nat)
    requires k < |rs| && rs[k].Some? && rs[k].value != FrameStart
    requires FirstFrameAt(FeedFrom(rs, k), i, j)
    ensures i >= 1 && FirstFrameAt(FeedFrom(rs, k + 1), i - 1, j - 1)
    ensures FeedFrom(rs, k)[i..j + 1] == FeedFrom(rs, k + 1)[i - 1..j]
  {
    var rest := FeedFrom(rs, k + 1);
    assert FeedFrom(rs, k) == [rs[k].value] + rest;
    FirstFrameTail(rs[k].value, rest, i, j);
  }

  /** Once the stream from read k on holds a start marker and then an end marker, Hunt returns the run between them. */
  lemma {:induction false} HuntFindsFirstFrame(rs: seq<Option<byte>>, k: nat, i: nat, j: nat)
    requires FirstFrameAt(FeedFrom(rs, k), i, j)
    ensures Hunt(rs, k).Framed?
    ensures Hunt(rs, k).frame == FeedFrom(rs, k)[i..j + 1]
    decreases |rs| - k
  {
    assert k < |rs|;
    if rs[k] == Some(FrameStart) {
      HuntAtStart(rs, k, i, j);
    } else if rs[k] == None {
      FirstFrameSkipsEmpty(rs, k, i, j);
      HuntFindsFirstFrame(rs, k + 1, i, j);
      assert Hunt(rs, k) == Hunt(rs, k + 1);
    } else {
      FirstFrameSkipsByte(rs, k, i, j);
      HuntFindsFirstFrame(rs, k + 1, i - 1, j - 1);
      assert Hunt(rs, k) == Hunt(rs, k + 1);
    }
  }

  /** Conversely, Hunt returns a frame only when the stream from read k on holds one. */
  lemma {:induction false} HuntNeedsFrame(rs: seq<Option<byte>>, k: nat)
    requires Hunt(rs, k).Framed?
    ensures exists i: nat, j: nat :: FirstFrameAt(FeedFrom(rs, k), i, j)
    decreases |rs| - k
  {
    FeedFromStep(rs, k);
    var rest := FeedFrom(rs, k + 1);
    match rs[k]
    case None =>
      HuntNeedsFrame(rs, k + 1);
    case Some(b) =>
      if b == FrameStart {
        CollectEndsAtFirstEnd(rs, k + 1, [FrameStart]);
        var j: nat :| FirstEndAt(rest, j);
        FirstFrameAtHead(rest, j);
      } else {
        HuntNeedsFrame(rs, k + 1);
        var i: nat, j: nat :| FirstFrameAt(rest, i, j);
        FirstFrameCons(b, rest, i, j);
      }
  }

  /**
   * The reader returns a frame exactly when the bytes delivered before the
   * deadline hold a start marker followed later by an end marker, and the
   * frame is the run from the first start marker to the next end marker;
   * otherwise it times out.
   */
  lemma ScanIsFirstFrame(incoming: seq<Option<byte>>, budget: nat)
    ensures Scan(incoming, budget).Framed? <==>
      exists i: nat, j: nat :: FirstFrameAt(Delivered(incoming, budget), i, j)
    ensures forall i: nat, j: nat :: FirstFrameAt(Delivered(incoming, budget), i, j) ==>
      Scan(incoming, budget).Framed? && Scan(incoming, budget).frame == Delivered(incoming, budget)[i..j + 1]
  {
    var rs := Reads(incoming, budget);
    var bs := Delivered(incoming, budget);
    assert bs == FeedFrom(rs, 0);
    if Scan(incoming, budget).Framed? {
      HuntNeedsFrame(rs, 0);
    }
    forall i: nat, j: nat | FirstFrameAt(bs, i, j)
      ensures Scan(incoming, budget).Framed? && Scan(incoming, budget).frame == bs[i..j + 1]
    {
      HuntFindsFirstFrame(rs, 0, i, j);
    }
  }

  /** Hunt passes over reads that are not the start marker. */
  lemma {:induction false} HuntSkipsNoise(rs: seq<Option<byte>>, k: nat, m: nat)
    requires k <= m <= |rs|
    requires forall t :: k <= t < m ==> rs[t] != Some(FrameStart)
    ensures Hunt(rs, k) == Hunt(rs, m)
    decreases m - k
  {
    if k < m {
      HuntSkipsNoise(rs, k + 1, m);
    }
  }

  /** Collect appends an arriving run of bytes up to and including its first end marker. */
  lemma {:induction false} CollectTakesArrivals(rs: seq<Option<byte>>, k: nat, buf: seq<byte>, g: seq<byte>)
    requires PartialFrame(buf)
    requires |g| >= 1 && g[|g| - 1] == FrameEnd && forall t :: 0 <= t < |g| - 1 ==> g[t] != FrameEnd
    requires k + |g| <= |rs| && forall t :: 0 <= t < |g| ==> rs[k + t] == Some(g[t])
    ensures Collect(rs, k, buf) == Framed(buf + g, k + |g|)
    decreases |g|
  {
    assert rs[k + 0] == Some(g[0]);
    if |g| > 1 {
      forall t | 0 <= t < |g| - 1 ensures rs[k + 1 + t] == Some(g[1..][t]) {
        assert rs[k + (t + 1)] == Some(g[t + 1]);
      }
      CollectTakesArrivals(rs, k + 1, buf + [g[0]], g[1..]);
      assert buf + [g[0]] + g[1..] == buf + g;
    }
  }

  /** The reads of a queue made of noise, then a run of arriving bytes, then anything. */
  lemma ReadsOfArrivals(noise: seq<Option<byte>>, g: seq<byte>, later: seq<Option<byte>>, budget: nat)
    requires |noise| + |g| <= budget
    ensures Reads(noise + Arrivals(g) + later, budget)[..|noise|] == noise
    ensures Reads(noise + Arrivals(g) + later, budget)[|noise|..|noise| + |g|] == Arrivals(g)
  {
    var incoming := noise + Arrivals(g) + later;
    var rs := Reads(incoming, budget);
    assert rs[..|noise|] == incoming[..|noise|];
    assert rs[|noise|..|noise| + |g|] == incoming[|noise|..|noise| + |g|];
  }

  /** Hunt over reads that bring no start marker before read m, then a frame arriving byte by byte. */
  lemma {:induction false} HuntFindsArrivingFrame(rs: seq<Option<byte>>, m: nat, g: seq<byte>)
    requires FrameShape(g) && m + |g| <= |rs|
    requires Some(FrameStart) !in rs[..m]
    requires rs[m..m + |g|] == Arrivals(g)
    ensures Hunt(rs, 0) == Framed(g, m + |g|)
  {
    forall t | 0 <= t < m ensures rs[t] != Some(FrameStart) {
      assert rs[t] == rs[..m][t];
    }
    HuntSkipsNoise(rs, 0, m);
    assert rs[m] == rs[m..m + |g|][0];
    var tail := g[1..];
    forall t | 0 <= t < |tail| ensures rs[m + 1 + t] == Some(tail[t]) {
      assert rs[m + 1 + t] == rs[m..m + |g|][t + 1];
    }
    CollectTakesArrivals(rs, m + 1, [FrameStart], tail);
    assert [FrameStart] + tail == g;
  }

  /**
   * Resynchronisation: after any reads that bring no start marker, a frame
   * arriving byte by byte within the budget is returned whole.
   */
  lemma ScanFindsArrivingFrame(noise: seq<Option<byte>>, g: seq<byte>, later: seq<Option<byte>>, budget: nat)
    requires Some(FrameStart) !in noise
    requires FrameShape(g)
    requires |noise| + |g| <= budget
    ensures Scan(noise + Arrivals(g) + later, budget) == Framed(g, |noise| + |g|)
  {
    ReadsOfArrivals(noise, g, later, budget);
    HuntFindsArrivingFrame(Reads(noise + Arrivals(g) + later, budget), |noise|, g);
  }

  /** Position of the first end marker in s, or |s| when there is none. */
  function FirstEnd(s: seq<byte>): (j: nat)
    ensures j <= |s| && (j < |s| ==> s[j] == FrameEnd)
    ensures forall m :: 0 <= m < j ==> s[m] != FrameEnd
  {
    if s == [] || s[0] == FrameEnd then 0 else 1 + FirstEnd(s[1..])
  }

  /**
   * An encoded frame holds no end marker before its last byte exactly when
   * neither its address, its command nor its data is 0xA8; the checksum,
   * being below 0x80, never is.
   */
  lemma EncodedFrameShape(command: byte, address: byte, data: seq<byte>)
    ensures FrameShape(Encode(command, address, data)) <==>
      address != FrameEnd && command != FrameEnd && FrameEnd !in data
  {
    var f := Encode(command, address, data);
    if address != FrameEnd && command != FrameEnd && FrameEnd !in data {
      forall i | 0 <= i < |f| - 1 ensures f[i] != FrameEnd {
        if 3 <= i < |f| - 2 {
          assert f[i] == f[3..|f| - 2][i - 3];
        }
      }
    }
    if FrameEnd in data {
      var p :| 0 <= p < |data| && data[p] == FrameEnd;
      assert f[3 + p] == f[3..|f| - 2][p];
    }
  }

  /** The prefix of an encoded frame up to its first end marker has the shape of a frame. */
  lemma InnerEndPrefix(command: byte, address: byte, data: seq<byte>)
    requires address == FrameEnd || command == FrameEnd || FrameEnd in data
    ensures var f := Encode(command, address, data);
      1 <= FirstEnd(f) < |f| - 2 && FrameShape(f[..FirstEnd(f) + 1])
  {
    var f := Encode(command, address, data);
    if address == FrameEnd {
      assert f[1] == FrameEnd;
    } else if command == FrameEnd {
      assert f[2] == FrameEnd;
    } else {
      var p :| 0 <= p < |data| && data[p] == FrameEnd;
      assert f[3 + p] == f[3..|f| - 2][p];
    }
  }

  /** The reader stops at the end of a frame-shaped prefix of the bytes that arrive. */
  lemma ScanFindsArrivingPrefix(noise: seq<Option<byte>>, f: seq<byte>, n: nat, later: seq<Option<byte>>, budget: nat)
    requires n <= |f| && FrameShape(f[..n])
    requires Some(FrameStart) !in noise && |noise| + n <= budget
    ensures Scan(noise + Arrivals(f) + later, budget) == Framed(f[..n], |noise| + n)
  {
    var rest := Arrivals(f[n..]) + later;
    assert Arrivals(f) == Arrivals(f[..n]) + Arrivals(f[n..]);
    assert noise + Arrivals(f) + later == noise + Arrivals(f[..n]) + rest;
    ScanFindsArrivingFrame(noise, f[..n], rest, budget);
  }

  /**
   * A response whose address, command or data holds 0xA8 is cut short: the
   * reader stops at the first such byte and returns a proper prefix of it.
   */
  lemma ScanTruncatesAtInnerEnd(noise: seq<Option<byte>>, command: byte, address: byte, data: seq<byte>,
                                later: seq<Option<byte>>, budget: nat)
    requires address == FrameEnd || command == FrameEnd || FrameEnd in data
    requires Some(FrameStart) !in noise && |noise| + |data| + 5 <= budget
    ensures var f := Encode(command, address, data);
      && 1 <= FirstEnd(f) < |f| - 2
      && Scan(noise + Arrivals(f) + later, budget) == Framed(f[..FirstEnd(f) + 1], |noise| + FirstEnd(f) + 1)
  {
    var f := Encode(command, address, data);
    InnerEndPrefix(command, address, data);
    ScanFindsArrivingPrefix(noise, f, FirstEnd(f) + 1, later, budget);
  }
}
