/** The stack trace highlighter, line by line. */
module StackTrace {
  import opened Options
  import opened Text
  import opened Html

  const CAUSED := "Caused by:"
  const AT := "at "
  const MORE := "..."

  predicate IsFrame(ln: string) {
    HasPrefix(TrimSpace(ln), AT)
  }

  predicate IsCause(ln: string) {
    HasPrefix(TrimSpace(ln), CAUSED)
  }

  predicate IsMore(ln: string) {
    HasPrefix(TrimSpace(ln), MORE)
  }

  /** One "at method(file:line)" line: the white space around it goes. */
  function FrameHtml(ln: string): string
    requires IsFrame(ln)
  {
    var rest := TrimSpace(ln)[|AT|..];
    match LastIndexOf(rest, '(')
    case None =>
      Render(Span("tok-frame", AT)) + Render(Span("tok-fn", rest))
    case Some(open) =>
      Render(Span("tok-frame", AT)) + (Render(Span("tok-fn", rest[..open])) + Render(Span("tok-loc", rest[open..])))
  }

  /** The class a line gets as a whole, None for bare text. */
  function LineClass(ln: string, headerDone: bool): Option<string> {
    if IsCause(ln) then Some("tok-ex")
    else if IsMore(ln) then Some("muted")
    else if !headerDone && TrimSpace(ln) != "" then Some("tok-ex")
    else None
  }

  function LineHtml(ln: string, headerDone: bool): string {
    if IsFrame(ln) then FrameHtml(ln)
    else match LineClass(ln, headerDone)
      case Some(cls) => Render(Span(cls, ln))
      case None => Render(Plain(ln))
  }

  /** The first other non-blank line is the header. */
  predicate HeaderAfter(ln: string, headerDone: bool) {
    headerDone || (!IsCause(ln) && !IsFrame(ln) && !IsMore(ln) && TrimSpace(ln) != "")
  }

  function LinesHtml(lines: seq<string>, i: nat, headerDone: bool): string
    decreases |lines| - i
  {
    if i >= |lines| then ""
    else
      (if i > 0 then "\n" else "") +
      (LineHtml(lines[i], headerDone) + LinesHtml(lines, i + 1, HeaderAfter(lines[i], headerDone)))
  }

  const NO_TRACE := "(no stack trace)"

  function StackHtml(s: string): string {
    if TrimSpace(s) == "" then Render(Span("muted", NO_TRACE))
    else LinesHtml(Split(s, '\n'), 0, false)
  }

  // ---------- nothing is lost ----------

  /** What a line shows: itself, or itself trimmed when it is a frame. */
  function VisibleLine(ln: string): string {
    if IsFrame(ln) then TrimSpace(ln) else ln
  }

  function VisibleLines(lines: seq<string>): (r: seq<string>)
    ensures |r| == |lines|
  {
    seq(|lines|, i requires 0 <= i < |lines| => VisibleLine(lines[i]))
  }

  /** Three pieces in front of a rest show their texts in turn. */
  lemma ThreeShow(a: Piece, b: Piece, c: Piece, rest: string)
    requires Named(a) && Named(b) && Named(c)
    ensures Visible(Render(a) + (Render(b) + Render(c)) + rest, false) ==
            Prepend(a.text + b.text + c.text, Visible(rest, false))
  {
    hide Visible, Render, Named;
    var tail := Render(c) + rest;
    VisiblePiece(a, Render(b) + tail);
    VisiblePiece(b, tail);
    VisiblePiece(c, rest);
    assert Render(a) + (Render(b) + Render(c)) + rest == Render(a) + (Render(b) + tail);
    var r := Visible(rest, false);
    assert r.Some? ==> a.text + (b.text + (c.text + r.value)) == a.text + b.text + c.text + r.value;
  }

  lemma FrameShowsTrimmed(ln: string, rest: string)
    requires IsFrame(ln)
    ensures Visible(FrameHtml(ln) + rest, false) == Prepend(TrimSpace(ln), Visible(rest, false))
  {
    hide Visible, Render, TrimSpace, LastIndexOf;
    var trimmed := TrimSpace(ln);
    var tail := trimmed[|AT|..];
    assert trimmed == AT + tail;
    match LastIndexOf(tail, '(')
    case None =>
      TwoShow(Span("tok-frame", AT), Span("tok-fn", tail), rest);
    case Some(open) =>
      ThreeShow(Span("tok-frame", AT), Span("tok-fn", tail[..open]), Span("tok-loc", tail[open..]), rest);
      assert AT + tail[..open] + tail[open..] == trimmed;
  }

  lemma TwoShow(a: Piece, b: Piece, rest: string)
    requires Named(a) && Named(b)
    ensures Visible(Render(a) + Render(b) + rest, false) == Prepend(a.text + b.text, Visible(rest, false))
  {
    hide Visible, Render, Named;
    VisiblePiece(a, Render(b) + rest);
    VisiblePiece(b, rest);
    assert Render(a) + Render(b) + rest == Render(a) + (Render(b) + rest);
    var r := Visible(rest, false);
    assert r.Some? ==> a.text + (b.text + r.value) == a.text + b.text + r.value;
  }

  /** A frame is split at its last opening parenthesis into method and location; without one it
      is all method. */
  lemma FrameSplitsAtLastParenthesis(ln: string) returns (method': string, location: string)
    requires IsFrame(ln)
    ensures TrimSpace(ln) == AT + method' + location
    ensures location == "" ==> '(' !in method' && FrameHtml(ln) == Render(Span("tok-frame", AT)) + Render(Span("tok-fn", method'))
    ensures location != "" ==>
              location[0] == '(' && '(' !in location[1..] &&
              FrameHtml(ln) == Render(Span("tok-frame", AT)) + (Render(Span("tok-fn", method')) + Render(Span("tok-loc", location)))
  {
    hide TrimSpace, Render;
    var rest := TrimSpace(ln)[|AT|..];
    assert TrimSpace(ln) == AT + rest;
    match LastIndexOf(rest, '(')
    case None =>
      method', location := rest, "";
      assert AT + rest + "" == AT + rest;
    case Some(open) =>
      method', location := rest[..open], rest[open..];
      assert location[1..] == rest[open + 1..];
      assert AT + method' + location == AT + rest;
  }

  lemma LineShows(ln: string, headerDone: bool, rest: string)
    ensures Visible(LineHtml(ln, headerDone) + rest, false) == Prepend(VisibleLine(ln), Visible(rest, false))
  {
    hide Visible, Render, FrameHtml, TrimSpace, HasPrefix;
    if IsFrame(ln) {
      FrameShowsTrimmed(ln, rest);
    } else {
      match LineClass(ln, headerDone)
      case Some(cls) => VisiblePiece(Span(cls, ln), rest);
      case None => VisiblePiece(Plain(ln), rest);
    }
  }

  lemma NewlineShows(rest: string)
    ensures Visible("\n" + rest, false) == Prepend("\n", Visible(rest, false))
  {
    assert ("\n" + rest)[1..] == rest;
  }

  function Shown(lines: seq<string>, i: nat): string
    decreases |lines| - i
  {
    if i >= |lines| then "" else (if i > 0 then "\n" else "") + (VisibleLine(lines[i]) + Shown(lines, i + 1))
  }

  lemma {:induction false} LinesShow(lines: seq<string>, i: nat, headerDone: bool)
    ensures Visible(LinesHtml(lines, i, headerDone), false) == Some(Shown(lines, i))
    decreases |lines| - i
  {
    hide Visible, LineHtml, VisibleLine, HeaderAfter;
    if i >= |lines| {
      VisibleNothing();
    } else {
      var done := HeaderAfter(lines[i], headerDone);
      LinesShow(lines, i + 1, done);
      var rest := LinesHtml(lines, i + 1, done);
      LineShows(lines[i], headerDone, rest);
      NewlineShows(LineHtml(lines[i], headerDone) + rest);
      assert i == 0 ==> LinesHtml(lines, i, headerDone) == LineHtml(lines[i], headerDone) + rest;
      assert i == 0 ==> Shown(lines, i) == VisibleLine(lines[i]) + Shown(lines, i + 1);
    }
  }

  lemma {:induction false} ShownIsJoined(lines: seq<string>, i: nat)
    requires i < |lines|
    ensures Shown(lines, i) == (if i > 0 then "\n" else "") + Join(VisibleLines(lines)[i..], '\n')
    decreases |lines| - i
  {
    hide VisibleLine;
    var all := VisibleLines(lines);
    var start := if i > 0 then "\n" else "";
    assert Shown(lines, i) == start + (all[i] + Shown(lines, i + 1));
    if i + 1 < |lines| {
      ShownIsJoined(lines, i + 1);
      JoinCons(all[i], all[i + 1..], '\n');
      assert all[i..] == [all[i]] + all[i + 1..];
      assert all[i] + ("\n" + Join(all[i + 1..], '\n')) == Join(all[i..], '\n');
    } else {
      assert all[i..] == [all[i]];
      JoinOne(all[i], '\n');
      assert Shown(lines, i + 1) == "" && all[i] + "" == all[i];
    }
  }

  /** A non-blank trace keeps its line count, and line k shows exactly line k of the input,
      trimmed if and only if it is a frame; the spans are flat and balanced. */
  lemma StackLosesNothing(s: string)
    requires TrimSpace(s) != ""
    ensures Visible(StackHtml(s), false).Some?
    ensures Split(Visible(StackHtml(s), false).value, '\n') == VisibleLines(Split(s, '\n'))
  {
    hide Visible, VisibleLine, LinesHtml, Shown, Split, Join;
    var lines := Split(s, '\n');
    LinesShow(lines, 0, false);
    ShownIsJoined(lines, 0);
    SplitIsFree(s, '\n');
    VisibleLinesFree(lines);
    assert VisibleLines(lines)[0..] == VisibleLines(lines);
    assert Shown(lines, 0) == Join(VisibleLines(lines), '\n');
    SplitOfJoin(VisibleLines(lines), '\n');
  }

  lemma VisibleLinesFree(lines: seq<string>)
    requires AllFree(lines, '\n')
    ensures AllFree(VisibleLines(lines), '\n')
  {
    hide IsFrame, TrimSpace;
    forall i | 0 <= i < |lines|
      ensures Free(VisibleLines(lines)[i], '\n')
    {
      assert Free(lines[i], '\n');
      TrimKeepsFree(lines[i], '\n');
    }
  }

  // ---------- which line is the header ----------

  /** A line with no marker of its own, and not blank. */
  predicate IsBare(ln: string) {
    !IsCause(ln) && !IsFrame(ln) && !IsMore(ln) && TrimSpace(ln) != ""
  }

  ghost predicate BareBefore(lines: seq<string>, k: nat) {
    exists j :: 0 <= j < k && j < |lines| && IsBare(lines[j])
  }

  /** The lines' own HTML, each decided from its text and from whether an earlier line was bare. */
  ghost function LineHtmls(lines: seq<string>): (r: seq<string>)
    ensures |r| == |lines|
  {
    seq(|lines|, k requires 0 <= k < |lines| => LineHtml(lines[k], BareBefore(lines, k)))
  }

  lemma LineHtmlsAt(lines: seq<string>, k: nat)
    requires k < |lines|
    ensures LineHtmls(lines)[k] == LineHtml(lines[k], BareBefore(lines, k))
  {}

  lemma LinesHtmlAt(lines: seq<string>, i: nat, headerDone: bool)
    requires i < |lines|
    ensures LinesHtml(lines, i, headerDone) ==
            (if i > 0 then "\n" else "") +
            (LineHtml(lines[i], headerDone) + LinesHtml(lines, i + 1, HeaderAfter(lines[i], headerDone)))
  {
    hide LineHtml, HeaderAfter;
  }

  lemma BareStep(lines: seq<string>, i: nat, headerDone: bool)
    requires i < |lines| && headerDone == BareBefore(lines, i)
    ensures HeaderAfter(lines[i], headerDone) == BareBefore(lines, i + 1)
  {
    hide IsCause, IsFrame, IsMore, TrimSpace;
  }

  lemma {:induction false} LinesAreJoined(lines: seq<string>, i: nat, headerDone: bool)
    requires i < |lines| && headerDone == BareBefore(lines, i)
    ensures LinesHtml(lines, i, headerDone) == (if i > 0 then "\n" else "") + Join(LineHtmls(lines)[i..], '\n')
    decreases |lines| - i
  {
    hide LineHtml, HeaderAfter, BareBefore, LineHtmls, Join, LinesHtml;
    var all := LineHtmls(lines);
    LineHtmlsAt(lines, i);
    LinesHtmlAt(lines, i, headerDone);
    LinesHtmlEnd(lines, HeaderAfter(lines[i], headerDone));
    var done := HeaderAfter(lines[i], headerDone);
    var start := if i > 0 then "\n" else "";
    assert LinesHtml(lines, i, headerDone) == start + (all[i] + LinesHtml(lines, i + 1, done));
    if i + 1 < |lines| {
      BareStep(lines, i, headerDone);
      LinesAreJoined(lines, i + 1, done);
      JoinCons(all[i], all[i + 1..], '\n');
      assert all[i..] == [all[i]] + all[i + 1..];
      assert all[i] + ("\n" + Join(all[i + 1..], '\n')) == Join(all[i..], '\n');
    } else {
      assert all[i..] == [all[i]];
      JoinOne(all[i], '\n');
      assert all[i] + "" == all[i];
    }
  }

  /** Each line is highlighted by its own marker, and the first bare line, only that one, as the
      header. */
  lemma HeaderIsFirstBareLine(s: string, k: nat)
    requires TrimSpace(s) != "" && k < |Split(s, '\n')|
    ensures var lines := Split(s, '\n');
            StackHtml(s) == Join(LineHtmls(lines), '\n') &&
            (IsBare(lines[k]) ==>
               LineHtmls(lines)[k] == if BareBefore(lines, k) then Render(Plain(lines[k])) else Render(Span("tok-ex", lines[k]))) &&
            (IsCause(lines[k]) ==> LineHtmls(lines)[k] == Render(Span("tok-ex", lines[k]))) &&
            (IsMore(lines[k]) ==> LineHtmls(lines)[k] == Render(Span("muted", lines[k]))) &&
            (IsFrame(lines[k]) ==> LineHtmls(lines)[k] == FrameHtml(lines[k]))
  {
    hide LinesHtml, Split, Join, Render, TrimSpace, FrameHtml, IsCause, IsFrame, IsMore;
    var lines := Split(s, '\n');
    LinesAreJoined(lines, 0, false);
    assert LineHtmls(lines)[0..] == LineHtmls(lines);
    assert "" + Join(LineHtmls(lines), '\n') == Join(LineHtmls(lines), '\n');
    KindsAreDistinct(lines[k]);
  }

  // ---------- the kinds of lines, on text ----------

  predicate MarkedBy(ln: string, a: string, m: string, x: string) {
    Blank(a) && ln == a + m + x
  }

  lemma MarkedHasPrefix(ln: string, a: string, m: string, x: string)
    requires MarkedBy(ln, a, m, x) && m != "" && !IsSpace(m[0])
    requires IsSpace(m[|m| - 1]) ==> !Blank(x)
    ensures HasPrefix(TrimSpace(ln), m)
  {
    hide IsSpace, TrimSpace;
    if Blank(x) {
      TrimOf(a, m, x);
    } else {
      var p, q := TrimSplits(x);
      TrimIsBlank(x);
      var t := m + (p + TrimSpace(x));
      assert ln == a + t + q;
      assert Trimmed(t);
      TrimOf(a, t, q);
      assert t[..|m|] == m;
    }
  }

  lemma PrefixIsMarked(ln: string, m: string) returns (a: string, x: string)
    requires HasPrefix(TrimSpace(ln), m) && m != ""
    ensures MarkedBy(ln, a, m, x) && (IsSpace(m[|m| - 1]) ==> !Blank(x))
  {
    hide IsSpace, TrimSpace;
    var b;
    a, b := TrimSplits(ln);
    var t := TrimSpace(ln);
    var y := t[|m|..];
    x := y + b;
    assert t == m + y && ln == a + m + x;
    if IsSpace(m[|m| - 1]) {
      assert y != "";
      assert x[|y| - 1] == t[|t| - 1];
    }
  }

  /** What makes a line a cause, a frame or a "more" line, or blank: literal text after white
      space. A lone "at" is no frame. */
  lemma LineKinds(ln: string)
    ensures IsCause(ln) <==> exists a, x :: MarkedBy(ln, a, "Caused by:", x)
    ensures IsMore(ln) <==> exists a, x :: MarkedBy(ln, a, "...", x)
    ensures IsFrame(ln) <==> exists a, x :: MarkedBy(ln, a, "at ", x) && !Blank(x)
    ensures TrimSpace(ln) == "" <==> Blank(ln)
  {
    hide TrimSpace, MarkedBy, HasPrefix, Blank;
    TrimIsBlank(ln);
    assert !IsSpace('C') && !IsSpace(':') && !IsSpace('.') && !IsSpace('a') && IsSpace(' ');
    hide IsSpace;
    if IsCause(ln) {
      var a, x := PrefixIsMarked(ln, "Caused by:");
    }
    if IsMore(ln) {
      var a, x := PrefixIsMarked(ln, "...");
    }
    if IsFrame(ln) {
      var a, x := PrefixIsMarked(ln, "at ");
    }
    forall a, x | MarkedBy(ln, a, "Caused by:", x)
      ensures IsCause(ln)
    {
      MarkedHasPrefix(ln, a, "Caused by:", x);
    }
    forall a, x | MarkedBy(ln, a, "...", x)
      ensures IsMore(ln)
    {
      MarkedHasPrefix(ln, a, "...", x);
    }
    forall a, x | MarkedBy(ln, a, "at ", x) && !Blank(x)
      ensures IsFrame(ln)
    {
      MarkedHasPrefix(ln, a, "at ", x);
    }
  }

  // ---------- the method ----------

  lemma KindsAreDistinct(ln: string)
    ensures IsCause(ln) ==> !IsFrame(ln) && !IsMore(ln)
    ensures IsFrame(ln) ==> !IsMore(ln)
  {
    hide TrimSpace;
    var t := TrimSpace(ln);
    assert CAUSED[0] == 'C' && AT[0] == 'a' && MORE[0] == '.';
    assert |t| >= 10 ==> t[..10][0] == t[0];
    assert |t| >= 3 ==> t[..3][0] == t[0];
  }

  method HighlightStack(s: string) returns (out: string)
    ensures out == StackHtml(s)
    ensures Visible(out, false).Some?
    ensures Blank(s) ==> out == "<span class=\"muted\">(no stack trace)</span>"
  {
    hide Visible, Render, FrameHtml, TrimSpace, HasPrefix, Split, LinesHtml;
    TrimIsBlank(s);
    if TrimSpace(s) == "" {
      out := OPEN + "muted" + NAME_END + Escape(NO_TRACE) + CLOSE;
      BlankShows();
      BlankText();
      return;
    }
    StackLosesNothing(s);
    var lines := Split(s, '\n');
    out := "";
    var headerDone := false;
    for i := 0 to |lines|
      invariant LinesHtml(lines, 0, false) == out + LinesHtml(lines, i, headerDone)
    {
      LinesHtmlStep(lines, i, headerDone, out);
      KindsAreDistinct(lines[i]);
      if i > 0 {
        out := out + "\n";
      }
      var ln := lines[i];
      if IsCause(ln) {
        out := out + Render(Span("tok-ex", ln));
      } else if IsFrame(ln) {
        out := out + FrameHtml(ln);
      } else if IsMore(ln) {
        out := out + Render(Span("muted", ln));
      } else if !headerDone && TrimSpace(ln) != "" {
        out := out + Render(Span("tok-ex", ln));
        headerDone := true;
      } else {
        out := out + Render(Plain(ln));
      }
    }
    LinesHtmlEnd(lines, headerDone);
  }

  lemma LinesHtmlStep(lines: seq<string>, i: nat, headerDone: bool, out: string)
    requires i < |lines|
    ensures out + LinesHtml(lines, i, headerDone) ==
            (if i > 0 then out + "\n" else out) + LineHtml(lines[i], headerDone) +
            LinesHtml(lines, i + 1, HeaderAfter(lines[i], headerDone))
  {
    hide LineHtml, HeaderAfter;
  }

  lemma LinesHtmlEnd(lines: seq<string>, headerDone: bool)
    ensures LinesHtml(lines, |lines|, headerDone) == ""
  {}

  lemma BlankText()
    ensures OPEN + "muted" + NAME_END + Escape(NO_TRACE) + CLOSE == "<span class=\"muted\">(no stack trace)</span>"
  {
    hide Escape;
    NoTraceIsPlain();
    assert OPEN + "muted" + NAME_END == "<span class=\"muted\">";
  }

  lemma NoTraceIsPlain()
    ensures Escape(NO_TRACE) == NO_TRACE
  {
    hide Escape;
    EscapePlain(NO_TRACE);
  }

  lemma {:induction false} EscapePlain(s: string)
    requires forall i :: 0 <= i < |s| ==> s[i] == ' ' || s[i] == '(' || s[i] == ')' || 'a' <= s[i] <= 'z'
    ensures Escape(s) == s
  {
    if s != "" {
      EscapePlain(s[1..]);
    }
  }

  lemma BlankShows()
    ensures Render(Span("muted", NO_TRACE)) == OPEN + "muted" + NAME_END + Escape(NO_TRACE) + CLOSE
    ensures Visible(Render(Span("muted", NO_TRACE)), false) == Some(NO_TRACE)
  {
    hide Visible, Escape;
    VisiblePiece(Span("muted", NO_TRACE), "");
    VisibleNothing();
    assert NO_TRACE + "" == NO_TRACE;
    assert Render(Span("muted", NO_TRACE)) + "" == Render(Span("muted", NO_TRACE));
  }
}
