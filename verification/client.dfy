/**
 * The browser side of the sync protocol, from the script embedded in the
 * page: the mirror of the log tail held in `historyVersion`, `historyStart`
 * and `historyData`, the merge of a `/history` response into it
 * (`updateHistory`), and the poll interval (`historyDaemon`,
 * `resetHistoryDaemonTimer`).  Timers, requests and the DOM are outside the
 * model; the interval is kept as a number only.
 */
module SyncClient {
  import opened Basics
  import opened Framing
  import opened HistoryLog
  import opened SyncWindow

  /** The client's copy: bytes `data` at absolute offsets `[start, start + |data|)` of epoch `version`. */
  datatype Mirror = Mirror(version: nat, start: nat, data: seq<byte>)

  function End(m: Mirror): nat { m.start + |m.data| }

  /**
   * The browser's validity check on the three header numbers: every
   * comparison with NaN or `undefined` is false, so a missing field fails it.
   */
  predicate Acceptable(h: Header)
    ensures Acceptable(h) ==> h.version.Some? && h.start.Some? && h.begin.Some?
    ensures Acceptable(h) ==> 0 <= h.start.value <= h.begin.value
  {
    && h.version.Some? && h.start.Some? && h.begin.Some?
    && h.version.value >= 0 && h.start.value >= 0 && h.begin.value >= 0
    && h.begin.value >= h.start.value
  }

  /**
   * A same-epoch merge of a response `(newStart, begin, part)` into `m`,
   * stated on absolute offsets: bytes the server has evicted are dropped,
   * every byte the client still holds keeps its value, and the bytes of
   * `part` past the old end are appended, once, when `part` reaches that
   * end without a gap.
   */
  ghost predicate SameEpochMerge(m: Mirror, newStart: nat, begin: nat, part: seq<byte>, m': Mirror)
  {
    var reach := Max(End(m), newStart);
    && m'.version == m.version
    && m'.start == Max(m.start, newStart)
    && End(m') == (if begin <= reach < begin + |part| then begin + |part| else reach)
    && (forall k :: 0 <= k < End(m) - m'.start ==> m'.data[k] == m.data[m'.start - m.start + k])
    && (forall k :: reach - m'.start <= k < |m'.data| ==> m'.data[k] == part[m'.start - begin + k])
  }

  /**
   * What merging a scanned header `h` into `m` gives: 1 and no change for a
   * body failing the validity check; 0 and no change for an older epoch, or
   * for a newer one whose window does not start at its first retained byte;
   * the new epoch adopted wholesale, answering -1, when it does; and within
   * the same epoch the merge above, answering -1 exactly when it changed
   * the mirror and 1 otherwise.
   */
  ghost predicate Reconciled(m: Mirror, h: Header, m': Mirror, r: int)
  {
    if !Acceptable(h) then r == 1 && m' == m
    else if h.version.value < m.version then r == 0 && m' == m
    else if h.version.value > m.version then
      if h.begin.value == h.start.value then r == -1 && m' == Mirror(h.version.value, h.start.value, h.part)
      else r == 0 && m' == m
    else (r == -1 || r == 1) && (r == -1 <==> m' != m)
         && SameEpochMerge(m, h.start.value, h.begin.value, h.part, m')
  }

  /** The first half of a same-epoch merge: drop what the server has evicted. */
  ghost predicate Trimmed(m: Mirror, newStart: nat, t: Mirror)
  {
    && t.version == m.version
    && t.start == Max(m.start, newStart)
    && End(t) == Max(End(m), newStart)
    && (forall k :: 0 <= k < End(m) - t.start ==> t.data[k] == m.data[t.start - m.start + k])
  }

  /** The second half: append the part of the response past the trimmed end, if it reaches it. */
  lemma MergeFromTrim(m: Mirror, newStart: nat, begin: nat, part: seq<byte>, t: Mirror, m': Mirror)
    requires Trimmed(m, newStart, t)
    requires begin + |part| <= End(t) || begin > End(t) ==> m' == t
    requires begin <= End(t) < begin + |part| ==> m' == Mirror(t.version, t.start, t.data + part[End(t) - begin..])
    ensures SameEpochMerge(m, newStart, begin, part, m')
  {
    var reach := Max(End(m), newStart);
    if begin <= End(t) < begin + |part| {
      forall k | reach - m'.start <= k < |m'.data|
        ensures m'.data[k] == part[m'.start - begin + k]
      {
        assert m'.data[k] == part[End(t) - begin..][k - |t.data|];
      }
    }
  }

  /**
   * Within one epoch the mirror only moves forward: neither its start nor
   * its end offset ever decreases, and a response that starts past the
   * (trimmed) end leaves a gap and appends nothing.
   */
  lemma SameEpochForward(m: Mirror, h: Header, m': Mirror, r: int)
    requires Reconciled(m, h, m', r)
    ensures m'.version == m.version ==> m.start <= m'.start && End(m) <= End(m')
    ensures m.version <= m'.version
    ensures Acceptable(h) && h.version.value == m.version && h.begin.value > Max(End(m), h.start.value)
      ==> End(m') == Max(End(m), h.start.value)
  {
  }

  /** The mirror holds exactly the epoch's bytes at the offsets it claims. */
  ghost predicate Consistent(m: Mirror, appended: seq<byte>)
  {
    End(m) <= |appended| && m.data == appended[m.start..End(m)]
  }

  class Client {
    var historyVersion: nat
    var historyStart: nat
    var historyData: seq<byte>
    var historyDaemonInterval: int

    function Cached(): Mirror
      reads this
    {
      Mirror(historyVersion, historyStart, historyData)
    }

    constructor ()
      ensures Cached() == Mirror(0, 0, []) && historyDaemonInterval == 0
    {
      historyVersion, historyStart, historyData := 0, 0, [];
      historyDaemonInterval := 0;
    }

    /**
     * `updateHistory`: a failed request (status other than 200) leaves
     * everything alone and answers 1; otherwise the body's header is scanned
     * and the response merged.  The answer is -1 exactly when the mirror
     * changed, which is what tells the poller to speed up again.
     */
    method UpdateHistory(status: int, response: seq<byte>) returns (r: int)
      modifies this`historyVersion, this`historyStart, this`historyData
      ensures r == -1 <==> Cached() != old(Cached())
      ensures status != 200 ==> r == 1 && Cached() == old(Cached())
      ensures status == 200 ==> Reconciled(old(Cached()), ScanHeader(response), Cached(), r)
    {
      if status != 200 {
        return 1;
      }
      var header := ParseHeader(response);
      r := MergeResponse(header);
    }

    /** The part of `updateHistory` after the header scan. */
    method MergeResponse(header: Header) returns (r: int)
      modifies this`historyVersion, this`historyStart, this`historyData
      ensures Reconciled(old(Cached()), header, Cached(), r)
    {
      if !Acceptable(header) {
        return 1;
      }
      var newVersion: nat := header.version.value;
      var newStart: nat := header.start.value;
      var begin: nat := header.begin.value;
      var part := header.part;

      if newVersion < historyVersion {
        // A response overtaken by a newer epoch already seen.
        return 0;
      } else if newVersion == historyVersion {
        ghost var before := Cached();
        var ret := 1;
        if newStart > historyStart {
          if newStart < historyStart + |historyData| {
            historyData := historyData[newStart - historyStart..];
          } else {
            historyData := [];
          }
          historyStart := newStart;
          ret := -1;
        }
        ghost var trimmed := Cached();
        assert Trimmed(before, newStart, trimmed);
        ghost var (begin0, part0) := (begin, part);

        if begin + |part| <= historyStart + |historyData| {
          MergeFromTrim(before, newStart, begin0, part0, trimmed, Cached());
          return ret;
        }
        if begin < historyStart + |historyData| {
          part := part[historyStart + |historyData| - begin..];
          begin := historyStart + |historyData|;
        }
        if begin > historyStart + |historyData| {
          MergeFromTrim(before, newStart, begin0, part0, trimmed, Cached());
          return ret;
        }
        assert part == part0[End(trimmed) - begin0..];
        historyData := historyData + part;
        MergeFromTrim(before, newStart, begin0, part0, trimmed, Cached());
        return -1;
      } else {
        // A new epoch: usable only from its first retained byte.
        if begin != newStart {
          return 0;
        }
        historyVersion, historyStart, historyData := newVersion, newStart, part;
        return -1;
      }
    }

    method ResetHistoryDaemonTimer()
      modifies this`historyDaemonInterval
      ensures historyDaemonInterval == 0
    {
      historyDaemonInterval := 0;
    }

    /** One firing of the poll timer: lengthen the wait before the next poll. */
    method HistoryDaemon()
      modifies this`historyDaemonInterval
      ensures historyDaemonInterval == NextInterval(old(historyDaemonInterval))
    {
      if historyDaemonInterval < 400 {
        historyDaemonInterval := historyDaemonInterval + 100;
      } else if historyDaemonInterval < 1000 {
        historyDaemonInterval := historyDaemonInterval + 200;
      } else {
        historyDaemonInterval := historyDaemonInterval + 500;
      }
      if historyDaemonInterval > 5000 {
        historyDaemonInterval := 5000;
      }
    }

    /**
     * The poll's completion handler: merge the response, and poll again at
     * once if that made progress.  `x` is what `updateHistory` answered.
     */
    method OnHistoryLoaded(status: int, response: seq<byte>) returns (x: int)
      modifies this`historyVersion, this`historyStart, this`historyData, this`historyDaemonInterval
      ensures status != 200 ==> x == 1 && Cached() == old(Cached())
      ensures status == 200 ==> Reconciled(old(Cached()), ScanHeader(response), Cached(), x)
      ensures historyDaemonInterval == if x < 0 then 0 else old(historyDaemonInterval)
      ensures x < 0 <==> Cached() != old(Cached())
    {
      x := UpdateHistory(status, response);
      if x < 0 {
        ResetHistoryDaemonTimer();
      }
    }
  }

  /** The wait after one more idle poll: it grows until it reaches 5000 ms and then stays there. */
  function NextInterval(interval: int): (next: int)
    ensures interval < 5000 ==> interval < next <= 5000
    ensures interval >= 5000 ==> next == 5000
  {
    var bumped :=
      if interval < 400 then interval + 100
      else if interval < 1000 then interval + 200
      else interval + 500;
    if bumped > 5000 then 5000 else bumped
  }

  /** The wait after `n` idle polls since the last reset. */
  function Schedule(n: nat): int
  {
    if n == 0 then 0 else NextInterval(Schedule(n - 1))
  }

  /** 100 ms steps up to 400, 200 ms steps up to 1000, then 500 ms steps up to the 5000 ms ceiling. */
  lemma {:induction false} ScheduleSteps(n: nat)
    ensures Schedule(n) == if n <= 4 then 100 * n
                           else if n <= 7 then 400 + 200 * (n - 4)
                           else Min(5000, 1000 + 500 * (n - 7))
  {
    if n > 0 {
      ScheduleSteps(n - 1);
    }
  }

  /** The wait strictly grows for the first 15 idle polls and is 5000 ms from then on. */
  lemma ScheduleSettles(n: nat)
    ensures n < 15 ==> Schedule(n) < Schedule(n + 1)
    ensures n >= 15 ==> Schedule(n) == 5000
  {
    ScheduleSteps(n);
    ScheduleSteps(n + 1);
  }

  /** A merge of bytes the epoch really holds keeps a faithful mirror faithful. */
  lemma MergeKeepsConsistent(m: Mirror, newStart: nat, begin: nat, part: seq<byte>, m': Mirror, appended: seq<byte>)
    requires Consistent(m, appended)
    requires newStart <= begin && begin + |part| <= |appended| && part == appended[begin..begin + |part|]
    requires SameEpochMerge(m, newStart, begin, part, m')
    ensures Consistent(m', appended)
  {
    var reach := Max(End(m), newStart);
    forall k | 0 <= k < |m'.data|
      ensures m'.data[k] == appended[m'.start + k]
    {
      if m'.start + k < End(m) {
        var j := m'.start - m.start + k;
        assert 0 <= j < |m.data| && m'.data[k] == m.data[j];
        assert m.data[j] == appended[m.start..End(m)][j] == appended[m.start + j];
      } else {
        assert reach - m'.start <= k;
        assert End(m') > reach && begin <= reach < begin + |part| && End(m') == begin + |part|;
        var j := m'.start - begin + k;
        assert 0 <= j < |part| && m'.data[k] == part[j];
        assert part[j] == appended[begin..begin + |part|][j] == appended[begin + j];
      }
    }
  }

  /**
   * One poll in a steady epoch: a client asking from its own end offset ends
   * up with a faithful mirror that reaches `len` bytes further (from the
   * first retained byte if it had fallen behind the eviction), or to the end
   * of the log if fewer are left.
   */
  lemma SyncStep(appended: seq<byte>, snap: Snapshot, m: Mirror, len: nat, m': Mirror)
    requires snap.start + |snap.value| == |appended| && snap.value == appended[snap.start..]
    requires m.version == snap.version && Consistent(m, appended)
    requires var w := HistoryWindow(len, m.version, End(m), snap);
      SameEpochMerge(m, w.start, w.begin, w.part, m')
    ensures Consistent(m', appended)
    ensures End(m') == Min(Max(End(m), snap.start) + len, |appended|)
  {
    var w := HistoryWindow(len, m.version, End(m), snap);
    WindowIsHistoryRange(appended, snap, len, m.version, End(m));
    MergeKeepsConsistent(m, w.start, w.begin, w.part, m', appended);
  }

  /** Every body the server frames passes the browser's validity check and is read back unchanged. */
  lemma ServerResponsesAcceptable(len: nat, version: int, begin: int, snap: Snapshot)
    ensures var w := HistoryWindow(len, version, begin, snap);
      && ScanHeader(Frame(w)) == Header(Some(w.version), Some(w.start), Some(w.begin), w.part)
      && Acceptable(ScanHeader(Frame(w)))
  {
    FrameRoundTrip(HistoryWindow(len, version, begin, snap));
  }

  /** Conversely, every header that passes the check is what framing its own three numbers and part reads back as. */
  lemma AcceptableIsFramed(h: Header)
    requires Acceptable(h)
    ensures var w := Window(h.version.value as nat, h.start.value as nat, h.begin.value as nat, h.part);
      w.start <= w.begin && ScanHeader(Frame(w)) == h
  {
    FrameRoundTrip(Window(h.version.value as nat, h.start.value as nat, h.begin.value as nat, h.part));
  }

  /**
   * After a reset the server answers an old-epoch client from the new
   * epoch's first retained byte, which is exactly the response the client
   * adopts wholesale.
   */
  lemma NewEpochAdopted(m: Mirror, len: nat, begin: int, snap: Snapshot)
    requires m.version < snap.version
    ensures var h := ScanHeader(Frame(HistoryWindow(len, m.version, begin, snap)));
      && Acceptable(h) && h.version.value > m.version && h.begin.value == h.start.value
      && h.start.value == snap.start && h.part == snap.value[..Min(len, |snap.value|)]
  {
    ServerResponsesAcceptable(len, m.version, begin, snap);
  }
}
