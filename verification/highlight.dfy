/** The JSON highlighter: a tokenizer over arbitrary text that wraps tokens in spans. */
module Highlight {
  import opened Options
  import opened Html
  import opened JsonNumber

  predicate IsWs(c: char) {
    c == ' ' || c == '\t' || c == '\n' || c == '\r'
  }

  predicate IsPunct(c: char) {
    c == '{' || c == '}' || c == '[' || c == ']' || c == ':' || c == ','
  }

  predicate IsWordChar(c: char) {
    !IsWs(c) && !IsPunct(c) && c != '"'
  }

  // ---------- what each token is ----------

  /** Characters before the closing quote, None when the text ends first; a backslash takes the
      next character with it. */
  function BodyLength(t: string): (r: Option<nat>)
    ensures r.Some? ==> r.value < |t|
  {
    if t == "" then None
    else if t[0] == '"' then Some(0)
    else
      var step := if t[0] == '\\' then 2 else 1;
      if step > |t| then None else
        var rest := BodyLength(t[step..]);
        if rest.Some? then Some(step + rest.value) else None
  }

  function WsLength(t: string): (n: nat)
    ensures n <= |t|
  {
    if t == "" || !IsWs(t[0]) then 0 else 1 + WsLength(t[1..])
  }

  function WordLength(t: string): (n: nat)
    ensures n <= |t|
  {
    if t == "" || !IsWordChar(t[0]) then 0 else 1 + WordLength(t[1..])
  }

  /** A colon comes next, after white space. */
  predicate ColonNext(t: string) {
    WsLength(t) < |t| && t[WsLength(t)] == ':'
  }

  function StringClass(rest: string): string {
    if ColonNext(rest) then "tok-key" else "tok-str"
  }

  function WordPiece(word: string): Piece {
    if word == "true" || word == "false" then Span("tok-bool", word)
    else if word == "null" then Span("tok-null", word)
    else if NumberOk(word) then Span("tok-num", word)
    else Plain(word)
  }

  function TokenLength(t: string): (n: nat)
    requires t != ""
    ensures 1 <= n <= |t|
  {
    if t[0] == '"' then
      var body := BodyLength(t[1..]);
      if body.None? then |t| else body.value + 2
    else if IsPunct(t[0]) || IsWs(t[0]) then 1
    else WordLength(t)
  }

  function Token(t: string): (p: Piece)
    requires t != ""
  {
    var n := TokenLength(t);
    if t[0] == '"' then
      if BodyLength(t[1..]).None? then Plain(t[..n]) else Span(StringClass(t[n..]), t[..n])
    else if IsPunct(t[0]) || IsWs(t[0]) then Plain(t[..n])
    else WordPiece(t[..n])
  }

  function Pieces(t: string): seq<Piece> {
    if t == "" then [] else [Token(t)] + Pieces(t[TokenLength(t)..])
  }

  // ---------- nothing is lost ----------

  lemma TokenText(t: string)
    requires t != ""
    ensures Token(t).text == t[..TokenLength(t)] && Named(Token(t))
  {
    hide BodyLength, NumberOk, WordLength, ColonNext;
  }

  lemma {:induction false} PiecesKeepText(t: string)
    ensures TextOf(Pieces(t)) == t
    ensures forall i :: 0 <= i < |Pieces(t)| ==> Named(Pieces(t)[i])
  {
    hide Token, Named;
    if t != "" {
      var n := TokenLength(t);
      TokenText(t);
      PiecesKeepText(t[n..]);
      assert t == t[..n] + t[n..];
    }
  }

  /** For every text whatsoever the output is well formed, its spans are flat and balanced, and
      dropping the spans and undoing the entities gives the input back. */
  lemma HighlightLosesNothing(src: string)
    ensures Visible(RenderAll(Pieces(src)), false) == Some(src)
  {
    PiecesKeepText(src);
    VisibleOfRender(Pieces(src));
  }

  // ---------- the same, by position ----------

  /** The position the quote scan stops at: a quote, or past the end. */
  function QuoteAt(s: string, j: nat): (k: nat)
    ensures k < |s| ==> s[k] == '"' && j <= k
    decreases |s| - j
  {
    if j >= |s| then j
    else if s[j] == '\\' then QuoteAt(s, j + 2)
    else if s[j] == '"' then j
    else QuoteAt(s, j + 1)
  }

  lemma {:induction false} QuoteAtIsBodyEnd(s: string, j: nat)
    requires j <= |s|
    ensures match BodyLength(s[j..]) case None => QuoteAt(s, j) >= |s| case Some(n) => QuoteAt(s, j) == j + n
    decreases |s| - j
  {
    var t := s[j..];
    if j < |s| && s[j] != '"' {
      var step := if s[j] == '\\' then 2 else 1;
      if j + step <= |s| {
        assert t[step..] == s[j + step..];
        QuoteAtIsBodyEnd(s, j + step);
      }
    }
  }

  function WsEnd(s: string, i: nat): (k: nat)
    requires i <= |s|
    ensures i <= k <= |s|
  {
    i + WsLength(s[i..])
  }

  function WordEnd(s: string, i: nat): (k: nat)
    requires i <= |s|
    ensures i <= k <= |s|
  {
    i + WordLength(s[i..])
  }

  /** The piece that starts at i and the position after it. */
  function TokenAt(s: string, i: nat): Piece
    requires i < |s|
  {
    Token(s[i..])
  }

  function TokenEnd(s: string, i: nat): (k: nat)
    requires i < |s|
    ensures i < k <= |s|
  {
    i + TokenLength(s[i..])
  }

  function HtmlFrom(s: string, i: nat): string
    requires i <= |s|
  {
    RenderAll(Pieces(s[i..]))
  }

  lemma HtmlStep(s: string, i: nat)
    requires i < |s|
    ensures HtmlFrom(s, i) == Render(TokenAt(s, i)) + HtmlFrom(s, TokenEnd(s, i))
  {
    hide Token, Render;
    assert s[i..][TokenLength(s[i..])..] == s[TokenEnd(s, i)..];
    var ps := [Token(s[i..])] + Pieces(s[TokenEnd(s, i)..]);
    assert ps[1..] == Pieces(s[TokenEnd(s, i)..]);
  }

  lemma ColonAt(s: string, k: nat)
    requires k <= |s|
    ensures ColonNext(s[k..]) <==> WsEnd(s, k) < |s| && s[WsEnd(s, k)] == ':'
  {
    hide WsLength;
  }

  lemma StringToken(s: string, i: nat)
    requires i < |s| && s[i] == '"'
    ensures var j := QuoteAt(s, i + 1);
            if j < |s| then
              TokenEnd(s, i) == j + 1 &&
              TokenAt(s, i) == Span(if WsEnd(s, j + 1) < |s| && s[WsEnd(s, j + 1)] == ':' then "tok-key" else "tok-str", s[i..j + 1])
            else TokenEnd(s, i) == |s| && TokenAt(s, i) == Plain(s[i..])
  {
    hide BodyLength, ColonNext, WordLength, WordPiece, WsEnd, QuoteAt;
    var t := s[i..];
    QuoteAtIsBodyEnd(s, i + 1);
    assert t[0] == '"' && t[1..] == s[i + 1..];
    var j := QuoteAt(s, i + 1);
    if j < |s| {
      Slices(s, i, j + 1);
      ColonAt(s, j + 1);
    } else {
      assert t[..|t|] == t;
    }
  }

  lemma Slices(s: string, i: nat, j: nat)
    requires i <= j <= |s|
    ensures s[i..][..j - i] == s[i..j] && s[i..][j - i..] == s[j..]
  {}

  lemma CharToken(s: string, i: nat)
    requires i < |s| && (IsPunct(s[i]) || IsWs(s[i]))
    ensures TokenEnd(s, i) == i + 1 && TokenAt(s, i) == Plain([s[i]])
  {
    assert s[i..][..1] == [s[i]];
  }

  lemma WordToken(s: string, i: nat)
    requires i < |s| && IsWordChar(s[i])
    ensures TokenEnd(s, i) == WordEnd(s, i) && TokenAt(s, i) == WordPiece(s[i..WordEnd(s, i)])
  {
    hide NumberOk;
    assert s[i..][..WordLength(s[i..])] == s[i..WordEnd(s, i)];
  }

  lemma EscapeOne(c: char)
    ensures Escape([c]) == EscapeChar(c)
  {
    assert [c][1..] == "";
  }

  // ---------- the method ----------

  method ScanQuote(src: string, start: nat) returns (j: nat)
    ensures j == QuoteAt(src, start)
  {
    j := start;
    while j < |src|
      invariant QuoteAt(src, start) == QuoteAt(src, j)
    {
      if src[j] == '\\' {
        j := j + 2;
        continue;
      }
      if src[j] == '"' {
        break;
      }
      j := j + 1;
    }
  }

  method ScanWs(src: string, start: nat) returns (k: nat)
    requires start <= |src|
    ensures k == WsEnd(src, start)
  {
    k := start;
    while k < |src| && IsWs(src[k])
      invariant start <= k <= |src|
      invariant WsEnd(src, start) == WsEnd(src, k)
    {
      WsStep(src, k);
      k := k + 1;
    }
    WsStep(src, k);
  }

  method ScanWord(src: string, start: nat) returns (j: nat)
    requires start <= |src|
    ensures j == WordEnd(src, start)
  {
    j := start;
    while j < |src| && IsWordChar(src[j])
      invariant start <= j <= |src|
      invariant WordEnd(src, start) == WordEnd(src, j)
    {
      WordStep(src, j);
      j := j + 1;
    }
    WordStep(src, j);
  }

  method RenderWord(word: string) returns (out: string)
    ensures out == Render(WordPiece(word))
  {
    hide NumberOk, IsNumber, Escape;
    var cls := "";
    if word == "true" || word == "false" {
      cls := "tok-bool";
    } else if word == "null" {
      cls := "tok-null";
    } else {
      var isNumber := IsJsonNumber(word);
      if isNumber {
        cls := "tok-num";
      }
    }
    if cls == "" {
      out := Escape(word);
    } else {
      out := OPEN + cls + NAME_END + Escape(word) + CLOSE;
    }
  }

  /** What one turn of the loop appends, and where the next turn starts. */
  method RenderToken(src: string, i: nat) returns (out: string, next: nat)
    requires i < |src|
    ensures next == TokenEnd(src, i) && out == Render(TokenAt(src, i))
  {
    hide Escape, TokenAt, TokenEnd, QuoteAt, WsEnd, WordEnd, WordPiece;
    var c := src[i];
    if c == '"' {
      StringToken(src, i);
      var j := ScanQuote(src, i + 1);
      if j >= |src| {
        return Escape(src[i..]), |src|;
      }
      var lit := src[i..j + 1];
      var k := ScanWs(src, j + 1);
      var cls := "tok-str";
      if k < |src| && src[k] == ':' {
        cls := "tok-key";
      }
      return OPEN + cls + NAME_END + Escape(lit) + CLOSE, j + 1;
    } else if IsPunct(c) {
      CharToken(src, i);
      return Escape([c]), i + 1;
    } else if IsWs(c) {
      CharToken(src, i);
      EscapeWs(c);
      return [c], i + 1;
    } else {
      WordToken(src, i);
      next := ScanWord(src, i);
      out := RenderWord(src[i..next]);
    }
  }

  method HighlightJson(src: string) returns (out: string)
    ensures out == RenderAll(Pieces(src))
    ensures Visible(out, false) == Some(src)
  {
    hide Pieces, RenderAll, HtmlFrom, TokenAt, TokenEnd, Visible, Render;
    HighlightLosesNothing(src);
    HtmlEnds(src);
    out := "";
    var i := 0;
    while i < |src|
      invariant i <= |src|
      invariant RenderAll(Pieces(src)) == out + HtmlFrom(src, i)
    {
      HtmlStep(src, i);
      var html, next := RenderToken(src, i);
      assert out + (html + HtmlFrom(src, next)) == (out + html) + HtmlFrom(src, next);
      out := out + html;
      i := next;
    }
  }

  lemma HtmlEnds(s: string)
    ensures HtmlFrom(s, 0) == RenderAll(Pieces(s)) && HtmlFrom(s, |s|) == ""
  {
    hide Pieces, RenderAll;
    assert s[0..] == s && s[|s|..] == "";
    HtmlOfNothing();
  }

  lemma HtmlOfNothing()
    ensures RenderAll(Pieces("")) == ""
  {}

  lemma EscapeWs(c: char)
    requires IsWs(c)
    ensures Escape([c]) == [c]
  {
    EscapeOne(c);
  }

  lemma WsStep(s: string, k: nat)
    requires k <= |s|
    ensures WsEnd(s, k) == if k < |s| && IsWs(s[k]) then WsEnd(s, k + 1) else k
  {
    if k < |s| {
      assert s[k..][1..] == s[k + 1..];
    }
  }

  lemma WordStep(s: string, k: nat)
    requires k <= |s|
    ensures WordEnd(s, k) == if k < |s| && IsWordChar(s[k]) then WordEnd(s, k + 1) else k
  {
    if k < |s| {
      assert s[k..][1..] == s[k + 1..];
    }
  }
}
