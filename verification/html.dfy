/** Escaped text in flat spans: how the highlighters write it and how a reader takes it apart. */
module Html {
  import opened Options
  import opened Text

  function EscapeChar(c: char): string {
    match c
    case '&' => "&amp;"
    case '<' => "&lt;"
    case '>' => "&gt;"
    case '"' => "&#34;"
    case '\'' => "&#39;"
    case _ => [c]
  }

  function Escape(s: string): string {
    if s == "" then "" else EscapeChar(s[0]) + Escape(s[1..])
  }

  const OPEN := "<span class=\""
  const NAME_END := "\">"
  const CLOSE := "</span>"

  /** What a highlighter appends: escaped text, bare or in one span. */
  datatype Piece = Plain(text: string) | Span(cls: string, text: string)

  predicate IsNameChar(c: char) {
    'a' <= c <= 'z' || c == '-'
  }

  predicate IsName(cls: string) {
    forall i :: 0 <= i < |cls| ==> IsNameChar(cls[i])
  }

  predicate Named(p: Piece) {
    p.Span? ==> IsName(p.cls)
  }

  function Render(p: Piece): string {
    match p
    case Plain(text) => Escape(text)
    case Span(cls, text) => OPEN + cls + NAME_END + Escape(text) + CLOSE
  }

  function RenderAll(ps: seq<Piece>): string {
    if ps == [] then "" else Render(ps[0]) + RenderAll(ps[1..])
  }

  function TextOf(ps: seq<Piece>): string {
    if ps == [] then "" else ps[0].text + TextOf(ps[1..])
  }

  // ---------- reading it back ----------

  function NameLength(h: string): (n: nat)
    ensures n <= |h|
  {
    if h == "" || !IsNameChar(h[0]) then 0 else 1 + NameLength(h[1..])
  }

  function Prepend(s: string, r: Option<string>): Option<string> {
    if r.Some? then Some(s + r.value) else None
  }

  /** The character a leading entity stands for, with the entity's length. */
  function Entity(h: string): (r: Option<(char, nat)>)
    ensures r.Some? ==> 1 <= r.value.1 <= |h|
  {
    if HasPrefix(h, "&amp;") then Some(('&', 5))
    else if HasPrefix(h, "&lt;") then Some(('<', 4))
    else if HasPrefix(h, "&gt;") then Some(('>', 4))
    else if HasPrefix(h, "&#34;") then Some(('"', 5))
    else if HasPrefix(h, "&#39;") then Some(('\'', 5))
    else None
  }

  /** The visible text of h, or None unless h is nothing but plain characters, the five entities,
      and balanced spans that never nest. */
  function Visible(h: string, inSpan: bool): Option<string>
    decreases |h|
  {
    if h == "" then
      if inSpan then None else Some("")
    else if h[0] == '&' then
      match Entity(h)
      case None => None
      case Some((c, n)) => Prepend([c], Visible(h[n..], inSpan))
    else if h[0] == '<' then
      if HasPrefix(h, CLOSE) then
        if inSpan then Visible(h[|CLOSE|..], false) else None
      else if HasPrefix(h, OPEN) && !inSpan then
        var n := |OPEN| + NameLength(h[|OPEN|..]);
        if HasPrefix(h[n..], NAME_END) then Visible(h[n + |NAME_END|..], true) else None
      else None
    else if h[0] == '>' || h[0] == '"' || h[0] == '\'' then None
    else Prepend([h[0]], Visible(h[1..], inSpan))
  }

  lemma PrefixOfAppend(p: string, rest: string)
    ensures HasPrefix(p + rest, p) && (p + rest)[|p|..] == rest
  {}

  lemma VisibleChar(c: char, rest: string, inSpan: bool)
    ensures Visible(EscapeChar(c) + rest, inSpan) == Prepend([c], Visible(rest, inSpan))
  {
    PrefixOfAppend(EscapeChar(c), rest);
    var h := EscapeChar(c) + rest;
    if c == '&' || c == '<' || c == '>' || c == '"' || c == '\'' {
      EntityOfEscape(c, rest);
      assert h[0] == '&';
    } else {
      assert h[0] == c;
    }
  }

  lemma EntityOfEscape(c: char, rest: string)
    requires c == '&' || c == '<' || c == '>' || c == '"' || c == '\''
    ensures Entity(EscapeChar(c) + rest) == Some((c, |EscapeChar(c)|))
  {
    var h := EscapeChar(c) + rest;
    PrefixOfAppend(EscapeChar(c), rest);
    assert h[1] == EscapeChar(c)[1];
    assert h[2] == EscapeChar(c)[2];
    assert c == '"' || c == '\'' ==> h[3] == EscapeChar(c)[3];
    assert "&amp;"[1] == 'a' && "&lt;"[1] == 'l' && "&gt;"[1] == 'g' && "&#34;"[1] == '#' && "&#39;"[1] == '#';
    assert "&#34;"[3] == '4' && "&#39;"[3] == '9';
    assert HasPrefix(h, "&amp;") ==> h[..5][1] == h[1];
    assert HasPrefix(h, "&lt;") ==> h[..4][1] == h[1];
    assert HasPrefix(h, "&gt;") ==> h[..4][1] == h[1];
    assert HasPrefix(h, "&#34;") ==> h[..5][1] == h[1] && h[..5][3] == h[3];
    assert HasPrefix(h, "&#39;") ==> h[..5][1] == h[1];
  }

  lemma {:induction false} VisibleEscape(s: string, rest: string, inSpan: bool)
    ensures Visible(Escape(s) + rest, inSpan) == Prepend(s, Visible(rest, inSpan))
  {
    hide Visible, EscapeChar;
    if s == "" {
      assert Escape(s) + rest == rest;
      assert Visible(rest, inSpan).Some? ==> "" + Visible(rest, inSpan).value == Visible(rest, inSpan).value;
    } else {
      var tail := Escape(s[1..]) + rest;
      assert Escape(s) + rest == EscapeChar(s[0]) + tail;
      VisibleChar(s[0], tail, inSpan);
      VisibleEscape(s[1..], rest, inSpan);
      assert s == [s[0]] + s[1..];
      var r := Visible(rest, inSpan);
      assert r.Some? ==> [s[0]] + (s[1..] + r.value) == s + r.value;
    }
  }

  lemma {:induction false} NameLengthOf(cls: string, rest: string)
    requires IsName(cls) && (rest == "" || !IsNameChar(rest[0]))
    ensures NameLength(cls + rest) == |cls|
  {
    if cls == "" {
      assert cls + rest == rest;
    } else {
      assert (cls + rest)[1..] == cls[1..] + rest;
      NameLengthOf(cls[1..], rest);
    }
  }

  lemma VisibleOpen(cls: string, rest: string)
    requires IsName(cls)
    ensures Visible(OPEN + cls + NAME_END + rest, false) == Visible(rest, true)
  {
    var h := OPEN + cls + NAME_END + rest;
    var tail := cls + (NAME_END + rest);
    assert h == OPEN + tail;
    PrefixOfAppend(OPEN, tail);
    assert OPEN[0] == '<' && OPEN[1] == 's' && CLOSE[1] == '/';
    assert h[0] == '<' && h[1] == 's';
    assert |h| >= |CLOSE| ==> h[..|CLOSE|][1] == h[1];
    NameLengthOf(cls, NAME_END + rest);
    var n := |OPEN| + |cls|;
    assert h[n..] == NAME_END + rest;
    PrefixOfAppend(NAME_END, rest);
    assert h[n + |NAME_END|..] == rest;
  }

  lemma VisibleClose(rest: string)
    ensures Visible(CLOSE + rest, true) == Visible(rest, false)
  {
    PrefixOfAppend(CLOSE, rest);
    assert (CLOSE + rest)[0] == '<';
  }

  lemma VisiblePiece(p: Piece, rest: string)
    requires Named(p)
    ensures Visible(Render(p) + rest, false) == Prepend(p.text, Visible(rest, false))
  {
    hide Visible, Escape;
    match p
    case Plain(text) =>
      VisibleEscape(text, rest, false);
    case Span(cls, text) =>
      var tail := Escape(text) + (CLOSE + rest);
      assert Render(p) + rest == OPEN + cls + NAME_END + tail;
      VisibleOpen(cls, tail);
      VisibleEscape(text, CLOSE + rest, true);
      VisibleClose(rest);
  }

  lemma VisibleNothing()
    ensures Visible("", false) == Some("")
  {}

  /** What was rendered reads back as its text, and is well formed. */
  lemma {:induction false} VisibleOfRender(ps: seq<Piece>)
    requires forall i :: 0 <= i < |ps| ==> Named(ps[i])
    ensures Visible(RenderAll(ps), false) == Some(TextOf(ps))
  {
    hide Visible, Render;
    if ps == [] {
      VisibleNothing();
    } else {
      VisiblePiece(ps[0], RenderAll(ps[1..]));
      VisibleOfRender(ps[1..]);
    }
  }
}
