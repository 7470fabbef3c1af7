/**
 * Message framing of the read side: a byte stream is cut into lines that end
 * with CR LF, the framing of section 2.3 of RFC 1459 and section 2.3.1 of
 * RFC 2812.  The cut is always at the FIRST CR LF still in the buffer.
 */
module Framing {
  import opened Wrappers
  import opened Text

  newtype byte = x: int | 0 <= x < 256
  type Bytes = seq<byte>

  const CR: byte := 13
  const LF: byte := 10
  const CRLF: Bytes := [CR, LF]

  /** A CR LF pair starts at index `i` of `s`. */
  predicate CrlfAt(s: Bytes, i: int)
  {
    0 <= i && i + 1 < |s| && s[i] == CR && s[i + 1] == LF
  }

  predicate HasCrlf(s: Bytes)
  {
    exists i :: 0 <= i < |s| && CrlfAt(s, i)
  }

  /** `line_buffer.windows(2).position(|w| w == b"\r\n")`: the first CR LF, if any. */
  function FindCrlf(s: Bytes): (r: Option<nat>)
    ensures r.Some? ==> CrlfAt(s, r.value) && forall j :: 0 <= j < r.value ==> !CrlfAt(s, j)
    ensures r.None? <==> !HasCrlf(s)
  {
    FindCrlfFrom(s, 0)
  }

  /** The window search, resumed at window `k` once the windows before it failed. */
  function FindCrlfFrom(s: Bytes, k: nat): (r: Option<nat>)
    requires forall j :: 0 <= j < k ==> !CrlfAt(s, j)
    ensures r.Some? ==> k <= r.value && CrlfAt(s, r.value) && forall j :: 0 <= j < r.value ==> !CrlfAt(s, j)
    ensures r.None? <==> !HasCrlf(s)
    decreases |s| - k
  {
    if k + 1 >= |s| then None
    else if CrlfAt(s, k) then Some(k)
    else FindCrlfFrom(s, k + 1)
  }

  /** One complete line: it ends with CR LF and holds no earlier CR LF. */
  predicate IsFrame(f: Bytes)
  {
    EndsWith(f, CRLF) && forall j :: 0 <= j < |f| - 2 ==> !CrlfAt(f, j)
  }

  /** The bytes of several frames, one after the other. */
  function Concat(fs: seq<Bytes>): Bytes
  {
    if fs == [] then [] else fs[0] + Concat(fs[1..])
  }

  lemma {:induction false} ConcatAppend(a: seq<Bytes>, b: seq<Bytes>)
    ensures Concat(a + b) == Concat(a) + Concat(b)
  {
    if a == [] {
      assert a + b == b;
    } else {
      assert (a + b)[1..] == a[1..] + b;
      ConcatAppend(a[1..], b);
    }
  }

  /**
   * What the extraction loop of the read task does to a buffer: the complete
   * lines it cuts off, in order, and what stays behind.  No byte is lost,
   * duplicated or reordered, every line is a frame, and no CR LF stays behind.
   */
  function SplitFrames(buf: Bytes): (r: (seq<Bytes>, Bytes))
    ensures Concat(r.0) + r.1 == buf
    ensures forall i :: 0 <= i < |r.0| ==> IsFrame(r.0[i])
    ensures !HasCrlf(r.1)
    decreases |buf|
  {
    match FindCrlf(buf)
    case None => ([], buf)
    case Some(pos) =>
      var line := buf[..pos + 2];
      var more := SplitFrames(buf[pos + 2..]);
      FirstLineIsFrame(buf, pos);
      var fs := [line] + more.0;
      PrependFrame(line, more.0, more.1);
      SliceJoin(buf, pos + 2);
      (fs, more.1)
  }

  /** One cut of `SplitFrames`: at the first CR LF, or none when there is none. */
  lemma SplitFramesUnfold(buf: Bytes)
    ensures FindCrlf(buf).None? ==> SplitFrames(buf) == ([], buf)
    ensures FindCrlf(buf).Some? ==>
      var pos := FindCrlf(buf).value;
      SplitFrames(buf) == ([buf[..pos + 2]] + SplitFrames(buf[pos + 2..]).0, SplitFrames(buf[pos + 2..]).1)
  {
  }

  /** A frame put in front of frames and a remainder. */
  lemma PrependFrame(line: Bytes, fs: seq<Bytes>, rest: Bytes)
    requires IsFrame(line) && forall i :: 0 <= i < |fs| ==> IsFrame(fs[i])
    ensures Concat([line] + fs) + rest == line + (Concat(fs) + rest)
    ensures forall i :: 0 <= i < |[line] + fs| ==> IsFrame(([line] + fs)[i])
  {
    var all := [line] + fs;
    assert all[0] == line && all[1..] == fs;
  }

  /** Cutting a buffer just after its first CR LF gives a frame. */
  lemma FirstLineIsFrame(buf: Bytes, pos: nat)
    requires CrlfAt(buf, pos) && forall j :: 0 <= j < pos ==> !CrlfAt(buf, j)
    ensures IsFrame(buf[..pos + 2])
  {
    var line := buf[..pos + 2];
    assert line[|line| - 2..] == CRLF;
    forall j | 0 <= j < |line| - 2 ensures !CrlfAt(line, j) {
      assert CrlfAt(line, j) == CrlfAt(buf, j);
    }
  }

  /** A frame in front of anything: its own CR LF is the first one found. */
  lemma FrameFirstCrlf(f: Bytes, tail: Bytes)
    requires IsFrame(f)
    ensures FindCrlf(f + tail) == Some(|f| - 2)
  {
    var s := f + tail;
    assert CrlfAt(s, |f| - 2);
    forall j | 0 <= j < |f| - 2 ensures !CrlfAt(s, j) {
      assert CrlfAt(s, j) == CrlfAt(f, j);
    }
  }

  /**
   * The split is the ONLY way to write a buffer as frames followed by a
   * remainder without CR LF: the decoder's output is determined by the bytes.
   */
  lemma {:induction false} SplitFramesUnique(fs: seq<Bytes>, rest: Bytes)
    requires forall i :: 0 <= i < |fs| ==> IsFrame(fs[i])
    requires !HasCrlf(rest)
    ensures SplitFrames(Concat(fs) + rest) == (fs, rest)
  {
    if fs != [] {
      var f := fs[0];
      var tail := Concat(fs[1..]) + rest;
      var buf := Concat(fs) + rest;
      assert buf == f + tail;
      FrameFirstCrlf(f, tail);
      assert buf[..|f|] == f;
      assert buf[|f|..] == tail;
      SplitFramesUnique(fs[1..], rest);
      assert SplitFrames(buf) == ([f] + SplitFrames(tail).0, SplitFrames(tail).1);
      assert [f] + fs[1..] == fs;
    } else {
      assert Concat(fs) + rest == rest;
    }
  }

  /** Frames fed one after another come out as they went in, and nothing is left. */
  lemma SplitFramesOfFrames(fs: seq<Bytes>)
    requires forall i :: 0 <= i < |fs| ==> IsFrame(fs[i])
    ensures SplitFrames(Concat(fs)) == (fs, [])
  {
    SplitFramesUnique(fs, []);
    assert Concat(fs) + [] == Concat(fs);
  }

  /** A frame followed by a remainder without CR LF is cut into exactly that frame. */
  lemma SplitOneFrame(f: Bytes, rest: Bytes)
    requires IsFrame(f) && !HasCrlf(rest)
    ensures SplitFrames(f + rest) == ([f], rest)
  {
    var s := f + rest;
    FrameFirstCrlf(f, rest);
    SplitFramesUnfold(s);
    assert s[..|f| - 2 + 2] == f && s[|f| - 2 + 2..] == rest;
    SplitFramesUnfold(rest);
    assert FindCrlf(rest).None?;
    assert [f] + [] == [f];
  }

  /** Two frames followed by a remainder without CR LF are cut into those two frames. */
  lemma SplitTwoFrames(a: Bytes, b: Bytes, rest: Bytes)
    requires IsFrame(a) && IsFrame(b) && !HasCrlf(rest)
    ensures SplitFrames(a + b + rest) == ([a, b], rest)
  {
    var fs: seq<Bytes> := [a, b];
    assert Concat(fs[1..]) == b by {
      assert fs[1..] == [b] && [b][1..] == [];
    }
    assert Concat(fs) + rest == a + b + rest;
    SplitFramesUnique(fs, rest);
  }

  /**
   * A remainder without CR LF, completed by a CR LF, is one whole line: the
   * decoder cuts it and keeps nothing.
   */
  lemma CompletedRemainder(c: Bytes)
    requires !HasCrlf(c)
    ensures IsFrame(c + CRLF)
    ensures SplitFrames(c + CRLF) == ([c + CRLF], [])
  {
    var f := c + CRLF;
    assert f[|f| - 2..] == CRLF;
    forall j | 0 <= j < |f| - 2
      ensures !CrlfAt(f, j)
    {
      if j + 1 < |c| {
        assert !CrlfAt(c, j);
      } else {
        assert f[j + 1] == CR;
      }
    }
    assert f + [] == f;
    SplitOneFrame(f, []);
  }

  /** Feeding `A CR LF B CR LF C` cuts `A CR LF` and `B CR LF` and keeps `C`. */
  lemma TwoLinesAndAPartial()
    ensures SplitFrames([65, 13, 10, 66, 13, 10, 67]) == ([[65, 13, 10], [66, 13, 10]], [67])
  {
    var fs: seq<Bytes> := [[65, 13, 10], [66, 13, 10]];
    var rest: Bytes := [67];
    assert Concat(fs) + rest == [65, 13, 10, 66, 13, 10, 67];
    assert IsFrame(fs[0]) && IsFrame(fs[1]);
    SplitFramesUnique(fs, rest);
  }

  /** A later `CR LF` completes the kept `C` into the line `C CR LF`. */
  lemma PartialCompleted()
    ensures SplitFrames([67] + [13, 10]) == ([[67, 13, 10]], [])
  {
    var fs: seq<Bytes> := [[67, 13, 10]];
    assert Concat(fs) == [67, 13, 10] == [67] + [13, 10];
    assert IsFrame(fs[0]);
    SplitFramesOfFrames(fs);
  }
}
