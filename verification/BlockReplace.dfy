/** Marker-delimited block replacement in a document, and when writing a block twice is writing it once. */
module BlockReplace {
  import opened Basics

  predicate MatchAt(text: string, pattern: string, i: nat) {
    i + |pattern| <= |text| && text[i..i + |pattern|] == pattern
  }

  /** First match at or after `from`, as `str.index` finds it. */
  function Find(text: string, pattern: string, from: nat): Option<nat>
    decreases |text| + 1 - from
  {
    if from + |pattern| > |text| then None
    else if MatchAt(text, pattern, from) then Some(from)
    else Find(text, pattern, from + 1)
  }

  lemma {:induction false} FindIsFirst(text: string, pattern: string, from: nat)
    ensures match Find(text, pattern, from)
            case Some(i) => from <= i && MatchAt(text, pattern, i)
                            && forall j | from <= j < i :: !MatchAt(text, pattern, j)
            case None => forall j | from <= j :: !MatchAt(text, pattern, j)
    decreases |text| + 1 - from
  {
    if from + |pattern| <= |text| && !MatchAt(text, pattern, from) { FindIsFirst(text, pattern, from + 1); }
  }

  lemma FindsAt(text: string, pattern: string, from: nat, i: nat)
    requires from <= i && MatchAt(text, pattern, i) && forall j | from <= j < i :: !MatchAt(text, pattern, j)
    ensures Find(text, pattern, from) == Some(i)
  {
    FindIsFirst(text, pattern, from);
  }

  ghost predicate Occurs(pattern: string, text: string) { exists i: nat :: MatchAt(text, pattern, i) }

  /** The characters `str.rstrip` removes. */
  predicate IsSpace(c: char) {
    || '\t' <= c <= '\r' || '\U{1c}' <= c <= ' ' || c == '\U{85}' || c == '\U{a0}' || c == '\U{1680}'
    || '\U{2000}' <= c <= '\U{200a}' || c == '\U{2028}' || c == '\U{2029}' || c == '\U{202f}'
    || c == '\U{205f}' || c == '\U{3000}'
  }

  function RStrip(s: string): string {
    if s != [] && IsSpace(s[|s| - 1]) then RStrip(s[..|s| - 1]) else s
  }

  function StartMark(marker: string): string { "<!-- " + marker + " -->" }

  function EndMark(marker: string): string { "<!-- /" + marker + " -->" }

  function Replacement(marker: string, body: string): string {
    StartMark(marker) + "\n" + RStrip(body) + "\n" + EndMark(marker)
  }

  /** The text before and after the place a block goes: around the old block, or before the anchor. */
  datatype Frame = Frame(before: string, after: string)

  function FrameOf(text: string, marker: string, anchor: string): Result<Frame> {
    match Find(text, StartMark(marker), 0)
    case Some(first) =>
      FindIsFirst(text, StartMark(marker), 0);
      (match Find(text, EndMark(marker), first)
       case None => Err
       case Some(last) =>
         FindIsFirst(text, EndMark(marker), first);
         Ok(Frame(text[..first], text[last + |EndMark(marker)|..])))
    case None =>
      (match Find(text, anchor, 0)
       case None => Err
       case Some(at) =>
         FindIsFirst(text, anchor, 0);
         Ok(Frame(text[..at], "\n\n" + text[at..])))
  }

  function Replaced(text: string, marker: string, body: string, anchor: string): Result<string> {
    match FrameOf(text, marker, anchor)
    case Err => Err
    case Ok(frame) => Ok(frame.before + Replacement(marker, body) + frame.after)
  }

  /** Stripping removes exactly the white space at the end. */
  lemma {:induction false} RStripExactly(s: string, stripped: string)
    ensures stripped == RStrip(s)
            <==> stripped <= s && (forall k | |stripped| <= k < |s| :: IsSpace(s[k]))
                 && (stripped == [] || !IsSpace(stripped[|stripped| - 1]))
  {
    if s != [] && IsSpace(s[|s| - 1]) { RStripExactly(s[..|s| - 1], stripped); }
  }

  /** `i` is the first match at or after `from`. */
  ghost predicate FirstAt(text: string, pattern: string, from: nat, i: nat) {
    from <= i && MatchAt(text, pattern, i) && forall j | from <= j < i :: !MatchAt(text, pattern, j)
  }

  lemma FindExactly(text: string, pattern: string, from: nat)
    ensures forall i: nat :: FirstAt(text, pattern, from, i) <==> Find(text, pattern, from) == Some(i)
    ensures from == 0 ==> (Occurs(pattern, text) <==> Find(text, pattern, from).Some?)
  {
    FindIsFirst(text, pattern, from);
  }

  /** Where the block goes. With a start marker it takes the place from its first occurrence to the end of the first
      end marker from there on; without one it goes in front of the first anchor, with an empty line between. In no
      other case is there a new page. */
  lemma ReplacedExactly(text: string, marker: string, body: string, anchor: string, page: string)
    ensures var start, end := "<!-- " + marker + " -->", "<!-- /" + marker + " -->";
            var block := start + "\n" + RStrip(body) + "\n" + end;
            Replaced(text, marker, body, anchor) == Ok(page)
            <==> (exists f: nat, l: nat :: FirstAt(text, start, 0, f) && FirstAt(text, end, f, l)
                                           && page == text[..f] + block + text[l + |end|..])
                 || (!Occurs(start, text)
                     && exists i: nat :: FirstAt(text, anchor, 0, i) && page == text[..i] + block + "\n\n" + text[i..])
  {
    hide RStrip, Find, FirstAt, Occurs;
    var start, end := StartMark(marker), EndMark(marker);
    FindExactly(text, start, 0);
    FindExactly(text, anchor, 0);
    match Find(text, start, 0)
    case Some(f) => FindExactly(text, end, f);
    case None =>
      match Find(text, anchor, 0)
      case None =>
      case Some(i) =>
        FindIsFirst(text, anchor, 0);
        Reassociate(text[..i], Replacement(marker, body), "\n\n", text[i..]);
  }

  lemma Reassociate(a: string, b: string, c: string, d: string)
    ensures a + b + (c + d) == a + b + c + d
  {
  }

  /** The markers of the evidence scripts: no newline and no `<`. */
  predicate PlainMarker(marker: string) { '\n' !in marker && '<' !in marker }

  lemma MarkChars(marker: string)
    requires PlainMarker(marker)
    ensures |EndMark(marker)| == |StartMark(marker)| + 1
    ensures StartMark(marker)[0] == '<' && EndMark(marker)[0] == '<' && EndMark(marker)[|EndMark(marker)| - 1] == '>'
    ensures forall k | 0 < k < |StartMark(marker)| :: StartMark(marker)[k] != '<'
    ensures forall k | 0 <= k < |EndMark(marker)| :: EndMark(marker)[k] != '\n'
  {
    var start, end := StartMark(marker), EndMark(marker);
    forall k | 0 < k < |start| ensures start[k] != '<' {
      if 5 <= k < 5 + |marker| { assert start[k] == marker[k - 5]; }
    }
    forall k | 0 <= k < |end| ensures end[k] != '\n' {
      if 6 <= k < 6 + |marker| { assert end[k] == marker[k - 6]; }
    }
  }

  lemma MatchChar(text: string, pattern: string, i: nat, k: nat)
    requires k < |pattern|
    ensures MatchAt(text, pattern, i) ==> i + k < |text| && text[i + k] == pattern[k]
  {
    if MatchAt(text, pattern, i) { assert text[i..i + |pattern|][k] == text[i + k]; }
  }

  /** No start marker begins inside `before`, whatever follows the start marker behind it. */
  ghost predicate CleanBefore(before: string, marker: string) {
    forall i | 0 <= i && i + |StartMark(marker)| <= |before| :: !MatchAt(before, StartMark(marker), i)
  }

  lemma FrameIsClean(text: string, marker: string, anchor: string)
    requires FrameOf(text, marker, anchor).Ok?
    ensures CleanBefore(FrameOf(text, marker, anchor).value.before, marker)
  {
    var start := StartMark(marker);
    var before := FrameOf(text, marker, anchor).value.before;
    FindIsFirst(text, start, 0);
    FindIsFirst(text, anchor, 0);
    assert before == text[..|before|];
    forall i | 0 <= i && i + |start| <= |before| ensures !MatchAt(before, start, i) {
      assert before[i..i + |start|] == text[i..i + |start|];
      assert !MatchAt(text, start, i);
    }
  }

  /** The block just written is the first one found again. */
  lemma StartFoundAgain(before: string, marker: string, rest: string)
    requires PlainMarker(marker) && CleanBefore(before, marker)
    ensures Find(before + StartMark(marker) + rest, StartMark(marker), 0) == Some(|before|)
  {
    var start := StartMark(marker);
    var text := before + start + rest;
    MarkChars(marker);
    forall i | 0 <= i < |before| ensures !MatchAt(text, start, i) {
      if i + |start| <= |before| {
        assert !MatchAt(before, start, i);
        assert text[i..i + |start|] == before[i..i + |start|];
      } else {
        assert start[|before| - i] != '<' == text[|before|];
        MatchChar(text, start, i, |before| - i);
      }
    }
    assert text[|before|..|before| + |start|] == start;
    FindsAt(text, start, 0, |before|);
  }

  /** The text of a page that holds a written block. */
  function WrittenPage(before: string, marker: string, u: string, after: string): string {
    before + StartMark(marker) + ("\n" + u + "\n" + EndMark(marker) + after)
  }

  /** No end marker begins in the start marker or at the newline behind it. */
  lemma EndNotInStart(before: string, marker: string, u: string, after: string, i: nat)
    requires PlainMarker(marker) && |before| <= i <= |before| + |StartMark(marker)|
    ensures !MatchAt(WrittenPage(before, marker, u, after), EndMark(marker), i)
  {
    var start, end := StartMark(marker), EndMark(marker);
    var text := WrittenPage(before, marker, u, after);
    MarkChars(marker);
    assert text[|before| + |start|] == '\n';
    if i == |before| {
      MatchChar(text, end, i, |start|);
    } else {
      MatchChar(text, end, i, 0);
    }
  }

  /** Inside the body, an end marker of the page is an end marker of the body. */
  lemma EndInBody(before: string, marker: string, u: string, after: string, j: nat)
    requires PlainMarker(marker) && j <= |u|
    ensures MatchAt(WrittenPage(before, marker, u, after), EndMark(marker), |before| + |StartMark(marker)| + 1 + j)
            <==> MatchAt(u, EndMark(marker), j)
  {
    var end := EndMark(marker);
    var text := WrittenPage(before, marker, u, after);
    var at := |before| + |StartMark(marker)| + 1;
    MarkChars(marker);
    assert forall k | 0 <= k < |u| :: text[at + k] == u[k];
    assert text[at + |u|] == '\n';
    if j + |end| <= |u| {
      assert text[at + j..at + j + |end|] == u[j..j + |end|];
    } else {
      MatchChar(text, end, at + j, |u| - j);
    }
  }

  /** Where an end marker is found in a body of the page: its own, or the one behind its newline. */
  function Stop(marker: string, u: string): nat {
    match Find(u, EndMark(marker), 0)
    case Some(j) => j
    case None => |u| + 1
  }

  lemma MatchAtStop(before: string, marker: string, u: string, after: string)
    requires PlainMarker(marker)
    ensures MatchAt(WrittenPage(before, marker, u, after), EndMark(marker),
                    |before| + |StartMark(marker)| + 1 + Stop(marker, u))
  {
    var at, stop := |before| + |StartMark(marker)| + 1, Stop(marker, u);
    var text := WrittenPage(before, marker, u, after);
    FindIsFirst(u, EndMark(marker), 0);
    if stop <= |u| {
      EndInBody(before, marker, u, after, stop);
    } else {
      assert text[at + stop..at + stop + |EndMark(marker)|] == EndMark(marker);
    }
  }

  lemma NoMatchBeforeStop(before: string, marker: string, u: string, after: string, i: nat)
    requires PlainMarker(marker) && |before| <= i < |before| + |StartMark(marker)| + 1 + Stop(marker, u)
    ensures !MatchAt(WrittenPage(before, marker, u, after), EndMark(marker), i)
  {
    hide WrittenPage, StartMark, EndMark, PlainMarker;
    FindIsFirst(u, EndMark(marker), 0);
    if i <= |before| + |StartMark(marker)| {
      EndNotInStart(before, marker, u, after, i);
    } else {
      EndInBody(before, marker, u, after, i - (|before| + |StartMark(marker)| + 1));
    }
  }

  /** The reader of a written block finds its end behind the body, unless the body has an end marker of its own. */
  lemma EndFoundAgain(before: string, marker: string, u: string, after: string)
    requires PlainMarker(marker)
    ensures Find(WrittenPage(before, marker, u, after), EndMark(marker), |before|)
            == Some(|before| + |StartMark(marker)| + 1 + Stop(marker, u))
  {
    hide WrittenPage, StartMark, EndMark, Stop, Find, PlainMarker;
    var at := |before| + |StartMark(marker)| + 1 + Stop(marker, u);
    forall i | |before| <= i < at ensures !MatchAt(WrittenPage(before, marker, u, after), EndMark(marker), i) {
      NoMatchBeforeStop(before, marker, u, after, i);
    }
    MatchAtStop(before, marker, u, after);
    FindsAt(WrittenPage(before, marker, u, after), EndMark(marker), |before|, at);
  }

  /** What a second write keeps behind its block: the old trailing text, or with an end marker in the body, the
      rest of the body and the old end marker too. */
  function Trailing(marker: string, u: string, after: string): string {
    FindIsFirst(u, EndMark(marker), 0);
    match Find(u, EndMark(marker), 0)
    case None => after
    case Some(j) => u[j + |EndMark(marker)|..] + "\n" + EndMark(marker) + after
  }

  lemma FrameAgain(before: string, marker: string, u: string, after: string, anchor: string)
    requires PlainMarker(marker) && CleanBefore(before, marker)
    ensures FrameOf(WrittenPage(before, marker, u, after), marker, anchor)
            == Ok(Frame(before, Trailing(marker, u, after)))
  {
    hide Find, StartMark, EndMark;
    var start, end := StartMark(marker), EndMark(marker);
    var text := WrittenPage(before, marker, u, after);
    StartFoundAgain(before, marker, "\n" + u + "\n" + end + after);
    EndFoundAgain(before, marker, u, after);
    FindIsFirst(u, end, 0);
    assert text[..|before|] == before;
    var last := |before| + |start| + 1 + Stop(marker, u) + |end|;
    if Find(u, end, 0).None? {
      assert text[last..] == after;
    } else {
      assert text[last..] == u[Stop(marker, u) + |end|..] + "\n" + end + after;
    }
  }

  /** Last write wins, exactly: writing block `b2` over block `b1` gives what writing `b2` alone gives, if and
      only if the stripped `b1` contains no end marker. With `b1 == b2` this is idempotence. */
  lemma LastWriteWins(text: string, marker: string, b1: string, b2: string, anchor: string)
    requires PlainMarker(marker) && Replaced(text, marker, b1, anchor).Ok?
    ensures Replaced(text, marker, b2, anchor).Ok?
    ensures Replaced(Replaced(text, marker, b1, anchor).value, marker, b2, anchor).Ok?
    ensures Replaced(Replaced(text, marker, b1, anchor).value, marker, b2, anchor)
            == Replaced(text, marker, b2, anchor)
            <==> !Occurs(EndMark(marker), RStrip(b1))
  {
    hide Find, RStrip, StartMark, EndMark;
    var frame := FrameOf(text, marker, anchor).value;
    var u := RStrip(b1);
    FrameIsClean(text, marker, anchor);
    WrittenIsPage(frame, marker, b1);
    FrameAgain(frame.before, marker, u, frame.after, anchor);
    FindIsFirst(u, EndMark(marker), 0);
    assert Occurs(EndMark(marker), u) <==> Find(u, EndMark(marker), 0).Some?;
  }

  lemma WrittenIsPage(frame: Frame, marker: string, body: string)
    ensures frame.before + Replacement(marker, body) + frame.after
            == WrittenPage(frame.before, marker, RStrip(body), frame.after)
  {
  }

  /** Reading a block back: what stands between the start marker's line and the end marker's. */
  function ReadBlock(text: string, marker: string): Option<string> {
    match Find(text, StartMark(marker), 0)
    case None => None
    case Some(first) =>
      match Find(text, EndMark(marker), first)
      case None => None
      case Some(last) =>
        var from := first + |StartMark(marker)| + 1;
        if from <= last - 1 <= |text| then Some(text[from..last - 1]) else None
  }

  /** A written block reads back as its stripped body, and the text outside it is the text that was outside
      before: around the old block, or around the insertion point, where two newlines precede the anchor. */
  lemma WrittenBlockReads(text: string, marker: string, body: string, anchor: string)
    requires PlainMarker(marker) && Replaced(text, marker, body, anchor).Ok?
    requires !Occurs(EndMark(marker), RStrip(body))
    ensures var page := Replaced(text, marker, body, anchor).value;
            ReadBlock(page, marker) == Some(RStrip(body))
            && FrameOf(page, marker, anchor) == FrameOf(text, marker, anchor)
    ensures Find(text, StartMark(marker), 0).None? ==>
              var frame := FrameOf(text, marker, anchor).value;
              "\n\n" <= frame.after && frame.before + frame.after[2..] == text
  {
    hide RStrip, StartMark, EndMark, Find, FrameOf;
    var frame := FrameOf(text, marker, anchor).value;
    var u := RStrip(body);
    FrameIsClean(text, marker, anchor);
    WrittenIsPage(frame, marker, body);
    FindIsFirst(u, EndMark(marker), 0);
    FrameAgain(frame.before, marker, u, frame.after, anchor);
    PageReads(frame.before, marker, u, frame.after);
    if Find(text, StartMark(marker), 0).None? { InsertionKeepsText(text, marker, anchor); }
  }

  lemma PageReads(before: string, marker: string, u: string, after: string)
    requires PlainMarker(marker) && CleanBefore(before, marker) && Find(u, EndMark(marker), 0).None?
    ensures ReadBlock(WrittenPage(before, marker, u, after), marker) == Some(u)
  {
    hide Find, StartMark, EndMark;
    StartFoundAgain(before, marker, "\n" + u + "\n" + EndMark(marker) + after);
    EndFoundAgain(before, marker, u, after);
    var page := WrittenPage(before, marker, u, after);
    var from := |before| + |StartMark(marker)| + 1;
    assert page[from..from + |u|] == u;
  }

  lemma InsertionKeepsText(text: string, marker: string, anchor: string)
    requires FrameOf(text, marker, anchor).Ok? && Find(text, StartMark(marker), 0).None?
    ensures var frame := FrameOf(text, marker, anchor).value;
            "\n\n" <= frame.after && frame.before + frame.after[2..] == text
  {
    FindIsFirst(text, anchor, 0);
  }

  /** The restriction is real: a body that quotes its own end marker leaves a stray tail on the second write. */
  lemma QuotedEndMarkerDrifts()
    ensures exists text, marker, body, anchor ::
              PlainMarker(marker) && Replaced(text, marker, body, anchor).Ok?
              && Replaced(Replaced(text, marker, body, anchor).value, marker, body, anchor)
                 != Replaced(text, marker, body, anchor)
  {
    var marker, anchor := "m", "#";
    var body := EndMark(marker);
    assert Find("#", StartMark(marker), 0).None?;
    assert MatchAt("#", anchor, 0);
    assert Replaced("#", marker, body, anchor).Ok?;
    assert RStrip(body) == body;
    assert MatchAt(body, EndMark(marker), 0);
    LastWriteWins("#", marker, body, body, anchor);
  }
}
