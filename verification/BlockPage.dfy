/** The document file around block replacement: it is read with universal newlines and written as it then is. */
module BlockPage {
  import opened Basics
  import opened BlockReplace

  /** Reading text: a carriage return, with or without a newline behind it, is a newline. */
  function ReadText(file: string): string {
    if file == [] then []
    else if file[0] != '\r' then [file[0]] + ReadText(file[1..])
    else if |file| > 1 && file[1] == '\n' then "\n" + ReadText(file[2..])
    else "\n" + ReadText(file[1..])
  }

  /** Reading leaves no carriage return, and changes exactly the files that have one. */
  lemma {:induction false} ReadTextExactly(file: string)
    ensures '\r' !in ReadText(file)
    ensures ReadText(file) == file <==> '\r' !in file
  {
    if file == [] {
    } else {
      ReadTextExactly(file[1..]);
      if |file| > 1 { ReadTextExactly(file[2..]); }
      assert file == [file[0]] + file[1..];
      if file[0] != '\r' { assert ReadText(file)[1..] == ReadText(file[1..]); }
    }
  }

  lemma ReadTextHead(file: string)
    requires file != []
    ensures ReadText(file) ==
            if file[0] == '\r' && |file| > 1 && file[1] == '\n' then "\n" + ReadText(file[2..])
            else [if file[0] == '\r' then '\n' else file[0]] + ReadText(file[1..])
  {
  }

  /** Reading works piece by piece, unless the cut is inside a pair of carriage return and newline. */
  lemma {:induction false} ReadTextAppend(a: string, b: string)
    requires a == [] || b == [] || a[|a| - 1] != '\r' || b[0] != '\n'
    ensures ReadText(a + b) == ReadText(a) + ReadText(b)
  {
    if a == [] {
      assert a + b == b;
    } else {
      hide ReadText;
      var pair := a[0] == '\r' && |a| > 1 && a[1] == '\n';
      var rest := if pair then a[2..] else a[1..];
      assert (a + b)[if pair then 2 else 1..] == rest + b;
      assert pair <==> (a + b)[0] == '\r' && |a + b| > 1 && (a + b)[1] == '\n';
      ReadTextHead(a);
      ReadTextHead(a + b);
      ReadTextAppend(rest, b);
      Regroup([if a[0] == '\r' then '\n' else a[0]], ReadText(rest), ReadText(b));
    }
  }

  lemma Regroup(a: string, b: string, c: string)
    ensures a + (b + c) == (a + b) + c
  {
  }

  /** A pair of carriage return and newline, or a carriage return alone, reads as one newline, wherever it stands. */
  lemma ReadTextLines(a: string, b: string)
    requires a == [] || a[|a| - 1] != '\r'
    ensures ReadText(a + "\r\n" + b) == ReadText(a) + "\n" + ReadText(b)
    ensures b == [] || b[0] != '\n' ==> ReadText(a + "\r" + b) == ReadText(a) + "\n" + ReadText(b)
  {
    hide ReadText;
    ReadTextAppend(a, "\r\n" + b);
    Regroup(a, "\r\n", b);
    ReadTextHead("\r\n" + b);
    assert ("\r\n" + b)[2..] == b;
    Regroup(ReadText(a), "\n", ReadText(b));
    ReadTextAppend(a, "\r" + b);
    Regroup(a, "\r", b);
    ReadTextHead("\r" + b);
    assert ("\r" + b)[1..] == b;
  }

  /** The new content of a file, or an error. */
  function FileReplaced(file: string, marker: string, body: string, anchor: string): Result<string> {
    Replaced(ReadText(file), marker, body, anchor)
  }

  /** A document file. */
  class Page {
    var file: string

    constructor (file: string)
      ensures this.file == file
    {
      this.file := file;
    }

    /** Put the block into the page: over the old block if the start marker is there, else before the anchor.
        A missing end marker or anchor is an error and leaves the file alone. */
    method ReplaceBlock(marker: string, body: string, anchor: string) returns (ok: bool)
      modifies this
      ensures ok <==> FileReplaced(old(file), marker, body, anchor).Ok?
      ensures file == if ok then FileReplaced(old(file), marker, body, anchor).value else old(file)
    {
      var start, end := StartMark(marker), EndMark(marker);
      var replacement := Replacement(marker, body);
      var content := ReadText(file);
      var first := Find(content, start, 0);
      if first.Some? {
        var stop := Find(content, end, first.value);
        if stop.None? { return false; }
        FindIsFirst(content, start, 0);
        FindIsFirst(content, end, first.value);
        var last := stop.value + |end|;
        content := content[..first.value] + replacement + content[last..];
      } else {
        var at := Find(content, anchor, 0);
        if at.None? { return false; }
        FindIsFirst(content, anchor, 0);
        assert "\n\n" + content[at.value..] == "\n\n" + anchor + content[at.value + |anchor|..];
        content := content[..at.value] + replacement + ("\n\n" + anchor + content[at.value + |anchor|..]);
      }
      file := content;
      return true;
    }
  }

  /** What a body reads as once it is in the page. */
  function BodyRead(body: string): string { ReadText(RStrip(body)) }

  lemma {:induction false} RStripEnd(s: string)
    ensures RStrip(s) == [] || !IsSpace(RStrip(s)[|RStrip(s)| - 1])
  {
    if s == [] {
    } else {
      RStripEnd(s[..|s| - 1]);
    }
  }

  lemma {:induction false} ReadTextEnd(s: string)
    requires s != [] && s[|s| - 1] != '\r'
    ensures ReadText(s) != [] && ReadText(s)[|ReadText(s)| - 1] == s[|s| - 1]
  {
    if |s| == 1 {
    } else if s[0] == '\r' && s[1] == '\n' {
      if |s| > 2 { ReadTextEnd(s[2..]); }
    } else {
      ReadTextEnd(s[1..]);
    }
  }

  /** What a body reads as has nothing to strip. */
  lemma BodyReadIsStripped(body: string)
    ensures RStrip(BodyRead(body)) == BodyRead(body)
  {
    var u := RStrip(body);
    RStripEnd(body);
    if u != [] { ReadTextEnd(u); }
  }

  lemma FrameHasNoReturn(text: string, marker: string, anchor: string)
    requires '\r' !in text && FrameOf(text, marker, anchor).Ok?
    ensures var frame := FrameOf(text, marker, anchor).value; '\r' !in frame.before && '\r' !in frame.after
  {
    hide StartMark, EndMark, Find;
    FindIsFirst(text, StartMark(marker), 0);
    FindIsFirst(text, anchor, 0);
    if Find(text, StartMark(marker), 0).Some? {
      FindIsFirst(text, EndMark(marker), Find(text, StartMark(marker), 0).value);
    }
  }

  lemma PageParts(frame: Frame, marker: string, body: string)
    ensures frame.before + Replacement(marker, body) + frame.after
            == (frame.before + StartMark(marker) + "\n") + (RStrip(body) + ("\n" + EndMark(marker) + frame.after))
  {
    hide RStrip, StartMark, EndMark;
  }

  /** A written page, read again, is the page written with what the body reads as. */
  lemma WrittenPageReads(text: string, marker: string, body: string, anchor: string)
    requires '\r' !in text && '\r' !in marker && Replaced(text, marker, body, anchor).Ok?
    ensures Replaced(text, marker, BodyRead(body), anchor).Ok?
    ensures ReadText(Replaced(text, marker, body, anchor).value)
            == Replaced(text, marker, BodyRead(body), anchor).value
  {
    hide FrameOf, RStrip, ReadText, Replacement;
    var frame := FrameOf(text, marker, anchor).value;
    var head := frame.before + StartMark(marker) + "\n";
    var tail := "\n" + EndMark(marker) + frame.after;
    var u := RStrip(body);
    FrameHasNoReturn(text, marker, anchor);
    BodyReadIsStripped(body);
    RStripEnd(body);
    ReadTextExactly(head);
    ReadTextExactly(tail);
    PageParts(frame, marker, body);
    PageParts(frame, marker, BodyRead(body));
    ReadTextAppend(u, tail);
    ReadTextAppend(head, u + tail);
  }

  /** Last write wins on files, for every file and every two bodies, carriage returns included: writing `b2` over
      `b1` gives what writing `b2` alone gives, if and only if `b1`, stripped and read back, contains no end
      marker. */
  lemma LastFileWriteWins(file: string, marker: string, b1: string, b2: string, anchor: string)
    requires PlainMarker(marker) && '\r' !in marker && FileReplaced(file, marker, b1, anchor).Ok?
    ensures FileReplaced(FileReplaced(file, marker, b1, anchor).value, marker, b2, anchor)
            == FileReplaced(file, marker, b2, anchor)
            <==> !Occurs(EndMark(marker), BodyRead(b1))
  {
    hide FrameOf, RStrip, ReadText, Replaced;
    var text := ReadText(file);
    ReadTextExactly(file);
    WrittenPageReads(text, marker, b1, anchor);
    BodyReadIsStripped(b1);
    LastWriteWins(text, marker, BodyRead(b1), b2, anchor);
  }

  /** What a write does to a file: the block reads back as the stripped body reads, the text around it is the text
      that was around the old block or the insertion point, as it reads; and on first insertion that text is the old
      file, byte for byte, if and only if the file has no carriage return. */
  lemma FileBlockReads(file: string, marker: string, body: string, anchor: string)
    requires PlainMarker(marker) && '\r' !in marker && FileReplaced(file, marker, body, anchor).Ok?
    requires !Occurs(EndMark(marker), BodyRead(body))
    ensures var page := FileReplaced(file, marker, body, anchor).value;
            ReadBlock(ReadText(page), marker) == Some(BodyRead(body))
            && FrameOf(ReadText(page), marker, anchor) == FrameOf(ReadText(file), marker, anchor)
    ensures Find(ReadText(file), StartMark(marker), 0).None? ==>
              var frame := FrameOf(ReadText(file), marker, anchor).value;
              "\n\n" <= frame.after
              && (frame.before + frame.after[2..] == file <==> '\r' !in file)
  {
    hide RStrip, ReadText, Find, StartMark, EndMark, FrameOf, ReadBlock;
    var text := ReadText(file);
    ReadTextExactly(file);
    WrittenPageReads(text, marker, body, anchor);
    BodyReadIsStripped(body);
    WrittenBlockReads(text, marker, BodyRead(body), anchor);
  }

  /** A page with a carriage return behind the anchor: the insertion rewrites it. */
  lemma CarriageReturnIsRewritten()
    ensures var file := "#\r\n";
            FileReplaced(file, "m", "", "#").Ok?
            && var frame := FrameOf(ReadText(file), "m", "#").value;
               frame.before + frame.after == "\n\n#\n"
  {
    var file := "#\r\n";
    assert file[1..] == "\r\n" && file[1..][2..] == "";
    assert ReadText(file[1..]) == "\n" + ReadText("");
    var text := ReadText(file);
    assert text == "#\n";
    FindIsFirst(text, StartMark("m"), 0);
    assert |StartMark("m")| > |text|;
    assert MatchAt(text, "#", 0);
    FindsAt(text, "#", 0, 0);
  }
}
