/**
 * The server side of a poll (`handle_history`): pick the window of the log a
 * client asked for and frame it as the response body.
 */
module SyncWindow {
  import opened Basics
  import opened HistoryLog
  import opened Framing

  /**
   * The window for a request `(len, version, begin)` against a snapshot: a
   * client from another epoch is sent everything from the first retained
   * byte; otherwise `begin` is clamped into the retained range
   * `[start, start + |value|]`.  The part is the retained bytes from `begin`
   * on, as many as are left but at most `len`.
   */
  function HistoryWindow(len: nat, version: int, begin: int, snap: Snapshot): (w: Window)
    ensures w.version == snap.version && w.start == snap.start
    ensures snap.start <= w.begin <= snap.start + |snap.value|
    ensures version != snap.version ==> w.begin == snap.start
    ensures version == snap.version ==>
      w.begin == (if begin < snap.start then snap.start
                  else if begin > snap.start + |snap.value| then snap.start + |snap.value|
                  else begin)
    ensures |w.part| == Min(len, snap.start + |snap.value| - w.begin)
    ensures forall k :: 0 <= k < |w.part| ==> w.part[k] == snap.value[w.begin - snap.start + k]
  {
    var requested := if snap.version != version then 0 else begin;
    var clamped :=
      if requested < snap.start then snap.start
      else if requested > snap.start + |snap.value| then snap.start + |snap.value|
      else requested;
    var offset := clamped - snap.start;
    Window(snap.version, snap.start, clamped, snap.value[offset..Min(offset + len, |snap.value|)])
  }

  /** A whole `/history` request: one consistent snapshot, its window, the framed body. */
  method HandleHistory(history: History, len: nat, version: int, begin: int) returns (body: seq<byte>)
    requires history.Valid()
    ensures body == Frame(HistoryWindow(len, version, begin, Snapshot(history.version, history.start, history.value)))
  {
    var snap := history.Get();
    var w := HistoryWindow(len, version, begin, snap);
    body := Frame(w);
  }

  /** The part of every window is the stretch of the epoch's bytes it claims to start at. */
  lemma WindowIsHistoryRange(appended: seq<byte>, snap: Snapshot, len: nat, version: int, begin: int)
    requires snap.start + |snap.value| == |appended| && snap.value == appended[snap.start..]
    ensures var w := HistoryWindow(len, version, begin, snap);
      w.begin + |w.part| <= |appended| && w.part == appended[w.begin..w.begin + |w.part|]
  {
    var w := HistoryWindow(len, version, begin, snap);
    forall k | 0 <= k < |w.part|
      ensures w.part[k] == appended[w.begin..w.begin + |w.part|][k]
    {
    }
  }
}
