/**
 * The body of a `/history` response: three decimal header lines
 * `version\nstart\nbegin\n` followed by the raw bytes of the window, and the
 * browser's scan that splits such a body back into its fields.
 */
module Framing {
  import opened Basics
  import opened Numerals

  /** What the server answers: its epoch, its first retained offset, the clamped begin, and the bytes from there. */
  datatype Window = Window(version: nat, start: nat, begin: nat, part: seq<byte>)

  /** What the browser reads out of a body; a field is `None` when its line is missing or holds no number. */
  datatype Header = Header(version: Option<int>, start: Option<int>, begin: Option<int>, part: seq<byte>)

  /** The response body: the three numbers on lines of their own, then the part, byte for byte. */
  function Frame(w: Window): seq<byte>
  {
    Decimal(w.version) + [NL] + Decimal(w.start) + [NL] + Decimal(w.begin) + [NL] + w.part
  }

  /** The first newline at or after `i`, or the end of `data` when there is none. */
  function NewlineFrom(data: seq<byte>, i: nat): (k: nat)
    requires i <= |data|
    ensures i <= k <= |data|
    ensures k < |data| ==> data[k] == NL
    ensures forall j :: i <= j < k ==> data[j] != NL
    decreases |data| - i
  {
    if i == |data| || data[i] == NL then i else NewlineFrom(data, i + 1)
  }

  /**
   * One header line read from `last`: the bytes up to the next newline and
   * the offset just past it, or a missing line and `last` unchanged when no
   * newline is left.
   */
  function ScanLine(data: seq<byte>, last: nat): (r: (Option<seq<byte>>, nat))
    requires last <= |data|
    ensures last <= r.1 <= |data|
    ensures var k := NewlineFrom(data, last);
      if k < |data| then r == (Some(data[last..k]), k + 1) else r == (None, last)
  {
    var k := NewlineFrom(data, last);
    if k < |data| then
      (Some(data[last..k]), k + 1)
    else
      (None, last)
  }

  /** The first `n` header lines of `data` and the offset where reading stopped. */
  function ScanLines(data: seq<byte>, n: nat): (r: (nat, seq<Option<seq<byte>>>))
    ensures r.0 <= |data| && |r.1| == n
  {
    if n == 0 then (0, [])
    else
      var before := ScanLines(data, n - 1);
      var step := ScanLine(data, before.0);
      (step.1, before.1 + [step.0])
  }

  /** The number on a header line: `undefined` (missing line) and NaN are both `None`. */
  function FieldValue(line: Option<seq<byte>>): Option<int>
  {
    match line
    case None => None
    case Some(text) => ParseInt(text)
  }

  /** The three header fields of a body and the bytes after them. */
  function ScanHeader(body: seq<byte>): Header
  {
    var (last, lines) := ScanLines(body, 3);
    Header(FieldValue(lines[0]), FieldValue(lines[1]), FieldValue(lines[2]), body[last..])
  }

  /** The inner search of the header loop. */
  method NextNewline(data: seq<byte>, i: nat) returns (k: nat)
    requires i <= |data|
    ensures k == NewlineFrom(data, i)
  {
    k := i;
    while k < |data|
      invariant i <= k <= |data|
      invariant NewlineFrom(data, k) == NewlineFrom(data, i)
    {
      if data[k] == NL {
        return;
      }
      k := k + 1;
    }
  }

  /**
   * The browser's scan (`updateHistory`'s header loop): three newline
   * searches over one index `i`, `last` marking where the current line
   * began, and the part taken from `last` after the third search.  A search
   * that finds no newline leaves `i` at the end, so later ones find none.
   */
  method ParseHeader(data: seq<byte>) returns (h: Header)
    ensures h == ScanHeader(data)
  {
    var newVersion: Option<int> := None;
    var newStart: Option<int> := None;
    var begin: Option<int> := None;
    var part: seq<byte> := [];
    var last, i := 0, 0;
    ghost var got: seq<Option<seq<byte>>> := [];
    var v := 0;
    while v < 3
      invariant 0 <= v <= 3
      invariant last == ScanLines(data, v).0 && got == ScanLines(data, v).1
      invariant last <= i <= |data| && NewlineFrom(data, i) == NewlineFrom(data, last)
      invariant newVersion == if v > 0 then FieldValue(got[0]) else None
      invariant newStart == if v > 1 then FieldValue(got[1]) else None
      invariant begin == if v > 2 then FieldValue(got[2]) else None
      invariant v == 3 ==> part == data[last..]
    {
      ghost var step := ScanLine(data, last);
      i := NextNewline(data, i);
      ghost var line: Option<seq<byte>> := None;
      if i < |data| {
        var p := ParseInt(data[last..i]);
        if v == 0 {
          newVersion := p;
        } else if v == 1 {
          newStart := p;
        } else if v == 2 {
          begin := p;
        }
        line := Some(data[last..i]);
        i := i + 1;
        last := i;
      }
      assert step.0 == line && step.1 == last;
      assert ScanLines(data, v + 1).0 == last && ScanLines(data, v + 1).1 == got + [line];
      if v == 2 {
        part := data[last..];
      }
      got := got + [line];
      v := v + 1;
    }
    return Header(newVersion, newStart, begin, part);
  }

  /** Where `data` starts with `head`, then a line without a newline, then a newline, `ScanLine` reads that line after `head`. */
  lemma ScanLineAt(data: seq<byte>, head: seq<byte>, line: seq<byte>)
    requires head + line + [NL] <= data && NL !in line
    ensures ScanLine(data, |head|) == (Some(line), |head| + |line| + 1)
  {
    var k := |head| + |line|;
    assert data[k] == (head + line + [NL])[k];
    forall j | |head| <= j < k
      ensures data[j] != NL
    {
      assert data[j] == (head + line + [NL])[j] == line[j - |head|];
    }
    assert NewlineFrom(data, |head|) == k;
    assert data[|head|..k] == line;
  }

  /** The three lines of a framed window are its three numerals, and the scan stops right before its part. */
  lemma FrameLines(w: Window)
    ensures var data := Frame(w);
      ScanLines(data, 3) == (|data| - |w.part|, [Some(Decimal(w.version)), Some(Decimal(w.start)), Some(Decimal(w.begin))])
  {
    var data := Frame(w);
    var a, b, c := Decimal(w.version), Decimal(w.start), Decimal(w.begin);
    var first := [] + a + [NL];
    var second := a + [NL] + b + [NL];
    var third := second + c + [NL];
    assert data == third + w.part;
    assert first <= data;
    ScanLineAt(data, [], a);
    assert [] + [Some(a)] == [Some(a)];
    assert ScanLines(data, 1) == (|first|, [Some(a)]);
    assert second <= data;
    ScanLineAt(data, a + [NL], b);
    assert ScanLine(data, |first|) == (Some(b), |second|);
    assert [Some(a)] + [Some(b)] == [Some(a), Some(b)];
    assert ScanLines(data, 2) == (|second|, [Some(a), Some(b)]);
    assert third <= data;
    ScanLineAt(data, second, c);
    assert ScanLine(data, |second|) == (Some(c), |third|);
    assert [Some(a), Some(b)] + [Some(c)] == [Some(a), Some(b), Some(c)];
  }

  /** Scanning a framed window gives back its three numbers and exactly its part, newlines in it included. */
  lemma FrameRoundTrip(w: Window)
    ensures ScanHeader(Frame(w)) == Header(Some(w.version), Some(w.start), Some(w.begin), w.part)
  {
    var data := Frame(w);
    FrameLines(w);
    assert data[|data| - |w.part|..] == w.part;
    ParseDecimal(w.version);
    ParseDecimal(w.start);
    ParseDecimal(w.begin);
  }
}
