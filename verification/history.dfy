/**
 * The server's bounded, versioned append log (`_History` in four/console.py)
 * and the one writer that feeds it from a code submission.
 *
 * The log keeps only the most recent `capacity` bytes of everything appended
 * since the last reset; `start` is the absolute offset of the first byte it
 * still holds, and `version` counts resets.  The lock that serialises the
 * operations is not modelled: every method below is one atomic step.
 */
module HistoryLog {
  import opened Basics

  /** The `(version, start, value)` triple `get` returns. */
  datatype Snapshot = Snapshot(version: nat, start: nat, value: seq<byte>)

  /** What `append` actually adds: a `\n` first when asked for and the buffer holds something. */
  function Separated(buffer: seq<byte>, chunk: seq<byte>, sep: bool): (piece: seq<byte>)
    ensures |piece| == |chunk| + (if sep && buffer != [] then 1 else 0)
    ensures piece[|piece| - |chunk|..] == chunk
    ensures |piece| > |chunk| ==> piece[0] == NL
  {
    if sep && buffer != [] then [NL] + chunk else chunk
  }

  class History {
    var version: nat
    var start: nat
    var value: seq<byte>
    /** The source's `self.len`: the most bytes `value` may hold. */
    const capacity: nat
    /** The bytes appended since the last reset that `value` no longer holds. */
    ghost var evicted: seq<byte>

    /** Everything appended since the last reset. */
    ghost function Appended(): seq<byte>
      reads this
    {
      evicted + value
    }

    /**
     * `start` counts the evicted bytes, and `value` holds min(capacity, n) of
     * the n bytes appended: bytes are evicted only once `value` is full.
     */
    ghost predicate Valid()
      reads this
    {
      start == |evicted| && |value| == Min(capacity, |evicted| + |value|)
    }

    constructor (len: int)
      ensures Valid()
      ensures capacity == Max(len, 0)
      ensures version == 0 && start == 0 && value == [] && Appended() == []
    {
      version := 0;
      capacity := Max(len, 0);
      new;
      ResetNoLock();
    }

    method ResetNoLock()
      modifies this`start, this`value, this`evicted
      ensures Valid()
      ensures start == 0 && value == [] && Appended() == []
    {
      start := 0;
      value := [];
      evicted := [];
    }

    /** A consistent copy of the three fields. */
    method Get() returns (s: Snapshot)
      requires Valid()
      ensures s == Snapshot(version, start, value)
      ensures s.start + |s.value| == |Appended()| && s.value == Appended()[s.start..]
      ensures |s.value| <= capacity
    {
      assert Appended()[start..] == value;
      return Snapshot(version, start, value);
    }

    /**
     * Appends `chunk`, preceded by `\n` when `sep` is set and the buffer is
     * not empty, then evicts from the front so that at most `capacity` bytes
     * remain.  `version` is outside the frame, so it is unchanged.
     */
    method Append(chunk: seq<byte>, sep: bool)
      requires Valid()
      modifies this`start, this`value, this`evicted
      ensures Valid()
      ensures Appended() == old(Appended()) + Separated(old(value), chunk, sep)
      ensures var whole := old(value) + Separated(old(value), chunk, sep);
        |value| == Min(capacity, |whole|) && value == whole[|whole| - |value|..]
      ensures start + |value| == old(start) + |old(value)| + |Separated(old(value), chunk, sep)|
      ensures old(start) <= start
      ensures version == old(version)
    {
      var piece := chunk;
      if sep && value != [] {
        piece := [NL] + chunk;
      }
      Evict(piece);
    }

    /** The eviction half of `append`: adds `piece`, then drops the oldest bytes beyond `capacity`. */
    method Evict(piece: seq<byte>)
      requires Valid()
      modifies this`start, this`value, this`evicted
      ensures Valid()
      ensures Appended() == old(Appended()) + piece
      ensures var whole := old(value) + piece;
        |value| == Min(capacity, |whole|) && value == whole[|whole| - |value|..]
      ensures start + |value| == old(start) + |old(value)| + |piece|
      ensures old(start) <= start
    {
      var newStart, newValue := start, value + piece;
      if |piece| > capacity {
        newStart := start + |value| + (|piece| - capacity);
        newValue := piece[|piece| - capacity..];
      } else if |piece| > capacity - |value| {
        var advance := |value| - (capacity - |piece|);
        newStart := start + advance;
        newValue := value[advance..] + piece;
      }
      ghost var dropped := EvictedState(evicted, value, piece, capacity, newStart, newValue);
      start, value, evicted := newStart, newValue, evicted + dropped;
    }

    /** Empties the log and starts a new epoch. */
    method Reset()
      modifies this
      ensures Valid()
      ensures start == 0 && value == [] && Appended() == []
      ensures version == old(version) + 1
    {
      ResetNoLock();
      version := version + 1;
    }
  }

  /** The three eviction branches of `append` all keep the last min(capacity, |value + piece|) bytes of `value + piece`. */
  lemma Evicted(value: seq<byte>, piece: seq<byte>, capacity: nat, kept: seq<byte>)
    requires |value| <= capacity
    requires kept == if |piece| > capacity then piece[|piece| - capacity..]
      else if |piece| > capacity - |value| then value[|value| - (capacity - |piece|)..] + piece
      else value + piece
    ensures var whole := value + piece;
      |kept| == Min(capacity, |whole|) && kept == whole[|whole| - |kept|..]
  {
    var whole := value + piece;
    if |piece| > capacity {
      assert kept == whole[|whole| - capacity..];
    } else if |piece| > capacity - |value| {
      assert kept == whole[|value| - (capacity - |piece|)..];
    }
  }

  /**
   * The state after an eviction: moving the bytes `append` dropped onto
   * `evicted` keeps the invariant and everything appended, in order, and
   * `start` moves forward by exactly the number of bytes dropped.
   */
  lemma EvictedState(evicted: seq<byte>, value: seq<byte>, piece: seq<byte>, capacity: nat, start': nat, kept: seq<byte>)
      returns (dropped: seq<byte>)
    requires |value| == Min(capacity, |evicted| + |value|)
    requires kept == if |piece| > capacity then piece[|piece| - capacity..]
      else if |piece| > capacity - |value| then value[|value| - (capacity - |piece|)..] + piece
      else value + piece
    requires start' == |evicted| + |value| + |piece| - |kept|
    ensures start' == |evicted + dropped|
    ensures |kept| == Min(capacity, |value + piece|)
    ensures |kept| == Min(capacity, |evicted + dropped| + |kept|)
    ensures (evicted + dropped) + kept == (evicted + value) + piece
    ensures kept == (value + piece)[|value + piece| - |kept|..]
    ensures |evicted| <= start'
  {
    var whole := value + piece;
    Evicted(value, piece, capacity, kept);
    Regrouped(evicted, value, piece, |whole| - |kept|);
    dropped := whole[..|whole| - |kept|];
  }

  /** Moving the first `n` bytes of `value + piece` onto `evicted` keeps everything appended, in order. */
  lemma Regrouped(evicted: seq<byte>, value: seq<byte>, piece: seq<byte>, n: nat)
    requires n <= |value| + |piece|
    ensures var whole := value + piece; (evicted + whole[..n]) + whole[n..] == (evicted + value) + piece
  {
    var whole := value + piece;
    assert whole[..n] + whole[n..] == whole;
    assert (evicted + whole[..n]) + whole[n..] == evicted + (whole[..n] + whole[n..]);
    assert evicted + (value + piece) == (evicted + value) + piece;
  }

  /**
   * A submission (`exec_and_update_handler`): the code is echoed with a
   * separator and a trailing newline, then the result of running it, when not
   * empty, is appended with a trailing newline.  The result is a parameter:
   * running Python code is outside the model.
   */
  method ExecAndUpdate(history: History, code: seq<byte>, result: seq<byte>)
    requires history.Valid()
    modifies history`start, history`value, history`evicted
    ensures history.Valid()
    ensures history.Appended() == old(history.Appended()) + Separated(old(history.value), code + [NL], true)
                                + (if result == [] then [] else result + [NL])
  {
    history.Append(code + [NL], true);
    if result != [] {
      history.Append(result + [NL], false);
    }
  }

  /** Python's `s[-k:]` for `k >= 0`: the last `k` elements, but all of `s` when `k == 0`. */
  function NegativeSlice(s: seq<byte>, k: nat): (r: seq<byte>)
    ensures k == 0 ==> r == s
    ensures 0 < k <= |s| ==> r == s[|s| - k..]
    ensures k >= |s| ==> r == s
  {
    if k == 0 || k >= |s| then s else s[|s| - k..]
  }

  /**
   * `append`'s eviction exactly as written, with Python's slice semantics:
   * returns the new `(start, value)` for the piece already carrying its separator.
   */
  function AppendAsWritten(capacity: nat, start: nat, value: seq<byte>, piece: seq<byte>): (r: (nat, seq<byte>))
    ensures start <= r.0
    ensures var n := Min(|piece|, |r.1|); r.1[|r.1| - n..] == piece[|piece| - n..]
    ensures capacity == 0 && piece != [] ==> r.1 == piece
  {
    if |piece| > capacity then
      (start + |value| + (|piece| - capacity), NegativeSlice(piece, capacity))
    else if |piece| > capacity - |value| then
      var advance := |value| - (capacity - |piece|);
      (start + advance, value[advance..] + piece)
    else
      (start, value + piece)
  }

  /** With capacity 0 one appended byte moves the end offset by two and overfills the buffer. */
  lemma ZeroCapacityBreaksOffsets()
    ensures var (start, value) := AppendAsWritten(0, 0, [], [NL]);
      start + |value| == 2 && |value| == 1
  {
  }

  /** For every positive capacity the code as written keeps the same suffix `History.Append` does. */
  lemma AppendAsWrittenAgrees(capacity: nat, start: nat, value: seq<byte>, piece: seq<byte>)
    requires 1 <= capacity && |value| <= capacity
    ensures var (start', value') := AppendAsWritten(capacity, start, value, piece);
      && |value'| == Min(capacity, |value| + |piece|)
      && value' == (value + piece)[|value| + |piece| - |value'|..]
      && start' + |value'| == start + |value| + |piece|
  {
    var whole := value + piece;
    if |piece| > capacity {
      assert NegativeSlice(piece, capacity) == whole[|whole| - capacity..];
    } else if |piece| > capacity - |value| {
      var advance := |value| - (capacity - |piece|);
      assert value[advance..] + piece == whole[advance..];
    } else {
      assert whole[0..] == whole;
    }
  }
}
