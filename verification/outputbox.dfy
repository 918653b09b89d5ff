/** The output box of `draw_bf` (main.c:279-318): the printable test, and how
    the log of everything written so far is wrapped into lines no wider than
    the box. */
module OutputBox {
  import opened Symbols

  /** Printable ASCII, 32 to 126 (main.c:279, 311). */
  predicate IsPrintable(b: byte) {
    32 <= b <= 126
  }

  /** The character a byte is drawn as: itself when printable, `.` otherwise. */
  function Glyph(b: byte): (c: char)
    ensures IsPrintable(b) ==> c as int == b as int
    ensures !IsPrintable(b) ==> c == '.'
  {
    if IsPrintable(b) then (b as int) as char else '.'
  }

  /** The glyphs of a run of bytes, one per byte. */
  function Render(bytes: seq<byte>): (s: seq<char>)
    ensures |s| == |bytes|
  {
    seq(|bytes|, i requires 0 <= i < |bytes| => Glyph(bytes[i]))
  }

  /** The glyphs of every byte of the log except the newlines, in order. */
  function Visible(log: seq<byte>): seq<char> {
    if |log| == 0 then []
    else Visible(log[..|log| - 1]) + (if log[|log| - 1] == NEWLINE then [] else [Glyph(log[|log| - 1])])
  }

  /** All lines laid end to end. */
  function Concat(lines: seq<seq<char>>): seq<char> {
    if |lines| == 0 then [] else Concat(lines[..|lines| - 1]) + lines[|lines| - 1]
  }

  function Last<T>(s: seq<T>): T
    requires |s| > 0
  {
    s[|s| - 1]
  }

  /** The log cut at its newline bytes, the newlines themselves dropped. */
  function SplitLines(log: seq<byte>): (segs: seq<seq<byte>>)
    ensures |segs| >= 1
    ensures forall i :: 0 <= i < |segs| ==> NEWLINE !in segs[i]
  {
    if |log| == 0 then [[]]
    else
      var segs := SplitLines(log[..|log| - 1]);
      var b := log[|log| - 1];
      if b == NEWLINE then segs + [[]]
      else segs[..|segs| - 1] + [Last(segs) + [b]]
  }

  /** The segments joined back together with a newline between neighbours. */
  function JoinLines(segs: seq<seq<byte>>): seq<byte>
    requires |segs| >= 1
  {
    if |segs| == 1 then segs[0] else JoinLines(segs[..|segs| - 1]) + [NEWLINE] + Last(segs)
  }

  /** Cutting the log at its newlines loses nothing: joining the pieces gives
      the log back. */
  lemma {:induction false} SplitLinesRoundTrip(log: seq<byte>)
    ensures JoinLines(SplitLines(log)) == log
    decreases |log|
  {
    if |log| > 0 {
      var init := log[..|log| - 1];
      var segs := SplitLines(init);
      SplitLinesRoundTrip(init);
      var b := log[|log| - 1];
      if b != NEWLINE {
        var segs' := segs[..|segs| - 1] + [Last(segs) + [b]];
        assert segs'[..|segs'| - 1] == segs[..|segs| - 1];
        if |segs| == 1 {
          assert JoinLines(segs') == Last(segs) + [b];
        } else {
          assert JoinLines(segs') == JoinLines(segs[..|segs| - 1]) + [NEWLINE] + (Last(segs) + [b]);
        }
      } else {
        assert (segs + [[]])[..|segs|] == segs;
      }
      assert init + [b] == log;
    }
  }

  /** A line of text cut into pieces of `w` characters; the last piece holds
      what is left, and an empty line is one empty piece. */
  function Chunks(s: seq<char>, w: nat): (pieces: seq<seq<char>>)
    requires w >= 1
    ensures |pieces| >= 1
    ensures forall i :: 0 <= i < |pieces| ==> |pieces[i]| <= w
    ensures forall i :: 0 <= i < |pieces| - 1 ==> |pieces[i]| == w
    decreases |s|
  {
    if |s| <= w then [s] else [s[..w]] + Chunks(s[w..], w)
  }

  /** The box contents specified without the column counter: split the log
      at its newlines, draw each segment, and cut each drawn segment into
      pieces of `w` characters. */
  function WrapSpec(log: seq<byte>, w: nat): (lines: seq<seq<char>>)
    requires w >= 1
  {
    ChunkAll(SplitLines(log), w)
  }

  function ChunkAll(segs: seq<seq<byte>>, w: nat): (lines: seq<seq<char>>)
    requires w >= 1
  {
    if |segs| == 0 then []
    else ChunkAll(segs[..|segs| - 1], w) + Chunks(Render(Last(segs)), w)
  }

  /** An empty log fills the box with one empty line. */
  lemma WrapEmpty(log: seq<byte>, w: nat)
    requires |log| == 0 && w >= 1
    ensures WrapSpec(log, w) == [[]]
  {
    assert log == [];
    var segs: seq<seq<byte>> := [[]];
    assert SplitLines([]) == segs;
    assert segs[..0] == [];
    assert Render([]) == [];
    assert Chunks([], w) == [[]];
    assert ChunkAll(segs, w) == ChunkAll(segs[..0], w) + Chunks(Render([]), w);
  }

  /** One more character on a line: it joins the last piece while that has
      room, and starts a new piece once the last piece is full. */
  lemma {:induction false} ChunksAppend(s: seq<char>, g: char, w: nat)
    requires w >= 1
    ensures var c := Chunks(s, w);
      Chunks(s + [g], w) ==
        if |Last(c)| < w then c[..|c| - 1] + [Last(c) + [g]] else c + [[g]]
    decreases |s|
  {
    var s' := s + [g];
    if |s| < w {
      assert Chunks(s, w) == [s];
      assert Chunks(s', w) == [s'];
      assert [s][..0] + [s'] == [s'];
    } else if |s| == w {
      assert Chunks(s, w) == [s];
      assert s'[..w] == s && s'[w..] == [g];
      assert Chunks([g], w) == [[g]];
      assert Chunks(s', w) == [s] + [[g]];
    } else {
      var rest := Chunks(s[w..], w);
      assert Chunks(s, w) == [s[..w]] + rest;
      assert s'[..w] == s[..w] && s'[w..] == s[w..] + [g];
      assert Chunks(s', w) == [s[..w]] + Chunks(s[w..] + [g], w);
      ChunksAppend(s[w..], g, w);
      assert Last([s[..w]] + rest) == Last(rest);
      if |Last(rest)| < w {
        assert ([s[..w]] + rest)[..|rest|] == [s[..w]] + rest[..|rest| - 1];
      }
    }
  }

  /** The wrapping rule the drawing loop applies to each byte of the log
      (main.c:303-317): a newline ends the current line and adds an empty one,
      even when the current line is already full; any other byte adds its
      glyph to the current line when that has fewer than `w` characters, and
      otherwise starts a new line with it. */
  lemma WrapAppend(log: seq<byte>, b: byte, w: nat)
    requires w >= 1
    ensures var c := WrapSpec(log, w);
      && |c| >= 1
      && WrapSpec(log + [b], w) ==
           if b == NEWLINE then c + [[]]
           else if |Last(c)| < w then c[..|c| - 1] + [Last(c) + [Glyph(b)]]
           else c + [[Glyph(b)]]
  {
    WrapLastSegment(log, w);
    if b == NEWLINE {
      WrapAppendNewline(log, w);
    } else {
      WrapAppendGlyph(log, b, w);
    }
  }

  lemma WrapAppendNewline(log: seq<byte>, w: nat)
    requires w >= 1
    ensures WrapSpec(log + [NEWLINE], w) == WrapSpec(log, w) + [[]]
  {
    var segs := SplitLines(log);
    SplitLinesSnoc(log, NEWLINE);
    ChunkAllSnoc(segs, [], w);
    assert Chunks(Render([]), w) == [[]];
  }

  lemma WrapAppendGlyph(log: seq<byte>, b: byte, w: nat)
    requires w >= 1 && b != NEWLINE
    ensures var c := WrapSpec(log, w);
      && |c| >= 1
      && WrapSpec(log + [b], w) ==
           if |Last(c)| < w then c[..|c| - 1] + [Last(c) + [Glyph(b)]] else c + [[Glyph(b)]]
  {
    var segs := SplitLines(log);
    var init := segs[..|segs| - 1];
    var last := Last(segs);
    var g := Glyph(b);
    var head := ChunkAll(init, w);
    var tail := Chunks(Render(last), w);
    var c := head + tail;
    WrapLastSegment(log, w);
    assert WrapSpec(log, w) == c;
    SplitLinesSnoc(log, b);
    assert SplitLines(log + [b]) == init + [last + [b]];
    ChunkAllSnoc(init, last + [b], w);
    RenderSnoc(last, b);
    assert WrapSpec(log + [b], w) == head + Chunks(Render(last) + [g], w);
    ChunksAppend(Render(last), g, w);
    LastOfAppend(head, tail);
    if |Last(tail)| < w {
      var line := [Last(tail) + [g]];
      assert Chunks(Render(last) + [g], w) == tail[..|tail| - 1] + line;
      AppendAssoc(head, tail[..|tail| - 1], line);
    } else {
      var line := [[g]];
      assert Chunks(Render(last) + [g], w) == tail + line;
      AppendAssoc(head, tail, line);
    }
  }

  lemma AppendAssoc<T>(a: seq<T>, b: seq<T>, c: seq<T>)
    ensures a + (b + c) == (a + b) + c
  {
  }

  lemma LastOfAppend<T>(a: seq<T>, b: seq<T>)
    requires |b| > 0
    ensures Last(a + b) == Last(b)
    ensures (a + b)[..|a + b| - 1] == a + b[..|b| - 1]
  {
  }

  /** Cutting one more byte off at the newlines: a newline opens a new empty
      segment, any other byte joins the last one. */
  lemma SplitLinesSnoc(log: seq<byte>, b: byte)
    ensures var segs := SplitLines(log);
      SplitLines(log + [b]) ==
        if b == NEWLINE then segs + [[]] else segs[..|segs| - 1] + [Last(segs) + [b]]
  {
    assert (log + [b])[..|log|] == log;
  }

  /** The wrapping of a log is that of all its segments but the last, then
      the pieces of the last. */
  lemma WrapLastSegment(log: seq<byte>, w: nat)
    requires w >= 1
    ensures var segs := SplitLines(log);
      WrapSpec(log, w) == ChunkAll(segs[..|segs| - 1], w) + Chunks(Render(Last(segs)), w)
  {
    var segs := SplitLines(log);
    assert segs == segs[..|segs| - 1] + [Last(segs)];
    ChunkAllSnoc(segs[..|segs| - 1], Last(segs), w);
  }

  lemma RenderSnoc(bytes: seq<byte>, b: byte)
    ensures Render(bytes + [b]) == Render(bytes) + [Glyph(b)]
  {
  }

  lemma ChunkAllSnoc(segs: seq<seq<byte>>, seg: seq<byte>, w: nat)
    requires w >= 1
    ensures ChunkAll(segs + [seg], w) == ChunkAll(segs, w) + Chunks(Render(seg), w)
  {
    assert (segs + [seg])[..|segs|] == segs;
  }

  lemma ConcatSnoc(lines: seq<seq<char>>, line: seq<char>)
    ensures Concat(lines + [line]) == Concat(lines) + line
  {
    assert (lines + [line])[..|lines|] == lines;
  }

  /** `WrapAppend` with the box contents split into the finished lines and
      the line being filled, as the drawing loop holds them. */
  lemma WrapAppendParts(done: seq<seq<char>>, current: seq<char>, log: seq<byte>, b: byte, w: nat)
    requires w >= 1 && done + [current] == WrapSpec(log, w)
    ensures b == NEWLINE ==> WrapSpec(log + [b], w) == done + [current] + [[]]
    ensures b != NEWLINE && |current| >= w ==> WrapSpec(log + [b], w) == done + [current] + [[Glyph(b)]]
    ensures b != NEWLINE && |current| < w ==> WrapSpec(log + [b], w) == done + [current + [Glyph(b)]]
  {
    WrapAppend(log, b, w);
    assert (done + [current])[..|done|] == done;
  }

  /** No line of the box is longer than `w`, so the padding drawn after each
      line (main.c:306, 318) is never negative. */
  lemma {:induction false} WrapLinesFit(log: seq<byte>, w: nat)
    requires w >= 1
    ensures forall i :: 0 <= i < |WrapSpec(log, w)| ==> |WrapSpec(log, w)[i]| <= w
    decreases |log|
  {
    if |log| == 0 {
      WrapEmpty(log, w);
    } else {
      var init := log[..|log| - 1];
      WrapLinesFit(init, w);
      WrapAppend(init, log[|log| - 1], w);
      assert init + [log[|log| - 1]] == log;
    }
  }

  /** The box shows every byte of the log except the newlines, each as one
      glyph, in order: nothing is lost and nothing is added by the wrapping. */
  lemma {:induction false} WrapKeepsText(log: seq<byte>, w: nat)
    requires w >= 1
    ensures Concat(WrapSpec(log, w)) == Visible(log)
    decreases |log|
  {
    if |log| == 0 {
      WrapEmpty(log, w);
      ConcatSnoc([], []);
    } else {
      var init := log[..|log| - 1];
      var b := log[|log| - 1];
      WrapKeepsText(init, w);
      WrapAppend(init, b, w);
      assert init + [b] == log;
      var c := WrapSpec(init, w);
      var head := c[..|c| - 1];
      assert c == head + [Last(c)];
      ConcatSnoc(head, Last(c));
      if b == NEWLINE {
        ConcatSnoc(c, []);
      } else if |Last(c)| < w {
        ConcatSnoc(head, Last(c) + [Glyph(b)]);
      } else {
        ConcatSnoc(c, [Glyph(b)]);
      }
    }
  }

  /** The wrapping of the whole log, read as the prefix of every byte. */
  lemma WrapWhole(log: seq<byte>, w: nat)
    requires w >= 1
    ensures var lines := WrapSpec(log[..|log|], w);
      && lines == WrapSpec(log, w)
      && (forall i :: 0 <= i < |lines| ==> |lines[i]| <= w)
      && Concat(lines) == Visible(log)
  {
    assert log[..|log|] == log;
    WrapLinesFit(log, w);
    WrapKeepsText(log, w);
  }

  /** One pass of the drawing loop of main.c:303-317 on the byte `c`: a
      newline, or a byte arriving when the line already holds `w` characters,
      closes the current line; every byte but a newline then adds its glyph.
      The lines drawn so far stay the wrapping of the log read so far. */
  method WrapByte(done: seq<seq<char>>, current: seq<char>, col: nat, log: seq<byte>, i: nat, w: nat)
    returns (done': seq<seq<char>>, current': seq<char>, col': nat)
    requires i < |log| && w >= 1 && col == |current|
    requires done + [current] == WrapSpec(log[..i], w)
    ensures col' == |current'|
    ensures done' + [current'] == WrapSpec(log[..i + 1], w)
  {
    var c := log[i];
    assert log[..i + 1] == log[..i] + [c];
    WrapAppendParts(done, current, log[..i], c, w);
    if c == NEWLINE {
      done', current', col' := done + [current], [], 0;
    } else if col >= w {
      done', current', col' := done + [current], [Glyph(c)], 1;
    } else {
      done', current', col' := done, current + [Glyph(c)], col + 1;
    }
  }

  /** The drawing loop of main.c:300-318, with the column counter `col` of
      the source. `boxInner` is `box_inner_width`; a line is broken once it
      holds `boxInner - 1` characters. */
  method WrapOutput(log: seq<byte>, boxInner: int) returns (lines: seq<seq<char>>)
    requires boxInner >= 2
    ensures lines == WrapSpec(log, boxInner - 1)
    ensures forall i :: 0 <= i < |lines| ==> |lines[i]| <= boxInner - 1
    ensures Concat(lines) == Visible(log)
  {
    var w: nat := boxInner - 1;
    var done: seq<seq<char>> := [];
    var current: seq<char> := [];
    var col := 0;
    var i := 0;
    WrapEmpty(log[..0], w);
    while i < |log|
      invariant 0 <= i <= |log|
      invariant col == |current|
      invariant done + [current] == WrapSpec(log[..i], w)
    {
      done, current, col := WrapByte(done, current, col, log, i, w);
      i := i + 1;
    }
    WrapWhole(log, w);
    lines := done + [current];
  }
}
