/** What the JSON highlighter does with any text at all, valid JSON or not: a reading of the text
    into pieces, described without the tokenizer, and the proof that the tokenizer finds it and
    that there is no other. */
module JsonReading {
  import opened Options
  import opened Html
  import opened JsonNumber
  import opened Highlight
  import opened JsonGrammar

  // ---------- the kinds of pieces ----------

  /** What may stand between quotes: no bare quote, and no backslash without its next character. */
  predicate IsBody(b: string) {
    b == "" ||
    (if b[0] == '\\' then |b| >= 2 && IsBody(b[2..]) else b[0] != '"' && IsBody(b[1..]))
  }

  predicate IsSingle(p: Piece) {
    p.Plain? && |p.text| == 1 && (p.text[0] in "{}[]:," || p.text[0] in " \t\n\r")
  }

  predicate IsQuoted(s: string) {
    |s| >= 2 && s[0] == '"' && s[|s| - 1] == '"' && IsBody(s[1..|s| - 1])
  }

  predicate AllWordChars(s: string) {
    forall i :: 0 <= i < |s| ==> s[i] !in "{}[]:, \t\n\r\""
  }

  /** A word gets the class of what it is: a literal of JSON, a number, or nothing. */
  ghost predicate IsWord(p: Piece) {
    p.text != "" && AllWordChars(p.text) &&
    (p == Span("tok-bool", "true") || p == Span("tok-bool", "false") || p == Span("tok-null", "null") ||
     (p == Span("tok-num", p.text) && IsNumber(p.text)) ||
     (p.Plain? && p.text !in {"true", "false", "null"} && !IsNumber(p.text)))
  }

  /** A quote that nothing closes. */
  predicate IsOpen(p: Piece) {
    p.Plain? && p.text != "" && p.text[0] == '"' &&
    forall k :: 1 <= k < |p.text| && p.text[k] == '"' ==> !IsBody(p.text[1..k])
  }

  predicate ColonAfter(rest: string, w: string, k: string) {
    AllWs(w) && rest == w + ":" + k
  }

  /** A colon comes next, white space aside. */
  ghost predicate ColonAhead(rest: string) {
    exists w, k :: ColonAfter(rest, w, k)
  }

  /** Piece p may stand in front of rest: single characters anywhere; a quoted string, a key
      exactly when a colon comes next; a word only where it ends; an unclosed quote only last. */
  ghost predicate Fits(p: Piece, rest: string) {
    || IsSingle(p)
    || (IsQuoted(p.text) && p == Span(if ColonAhead(rest) then "tok-key" else "tok-str", p.text))
    || (IsWord(p) && (rest != "" ==> !AllWordChars([rest[0]])))
    || (IsOpen(p) && rest == "")
  }

  ghost predicate IsReading(ps: seq<Piece>) {
    ps != [] ==> Fits(ps[0], TextOf(ps[1..])) && IsReading(ps[1..])
  }

  // ---------- quotes ----------

  lemma {:induction false} BodyEnds(b: string, k: string)
    requires IsBody(b)
    ensures BodyLength(b + ("\"" + k)) == Some(|b|)
  {
    var t := b + ("\"" + k);
    if b == "" {
      assert t == "\"" + k;
    } else {
      var step := if b[0] == '\\' then 2 else 1;
      BodyEnds(b[step..], k);
      assert t[step..] == b[step..] + ("\"" + k);
    }
  }

  lemma {:induction false} BodyLengthIsBody(t: string)
    requires BodyLength(t).Some?
    ensures var n := BodyLength(t).value; IsBody(t[..n]) && t[n] == '"'
  {
    if t[0] != '"' {
      var step := if t[0] == '\\' then 2 else 1;
      BodyLengthIsBody(t[step..]);
      var n := BodyLength(t).value;
      assert t[..n][step..] == t[step..][..n - step];
    }
  }

  lemma NoBodyIsOpen(t: string)
    ensures BodyLength(t).None? <==> forall k :: 0 <= k < |t| && t[k] == '"' ==> !IsBody(t[..k])
  {
    hide IsBody, BodyLength;
    if BodyLength(t).Some? {
      BodyLengthIsBody(t);
    }
    forall k | 0 <= k < |t| && t[k] == '"' && IsBody(t[..k])
      ensures BodyLength(t).Some?
    {
      BodyEnds(t[..k], t[k + 1..]);
      assert t == t[..k] + ("\"" + t[k + 1..]);
    }
  }

  lemma {:induction false} WsRun(t: string)
    ensures AllWs(t[..WsLength(t)]) && (WsLength(t) < |t| ==> !IsWs(t[WsLength(t)]))
  {
    if t != "" && IsWs(t[0]) {
      WsRun(t[1..]);
      var n := WsLength(t);
      assert t[..n] == [t[0]] + t[1..][..n - 1];
    }
  }

  lemma ColonNextIsAhead(rest: string)
    ensures ColonNext(rest) <==> ColonAhead(rest)
  {
    hide AllWs, IsWs;
    WsRun(rest);
    var n := WsLength(rest);
    if ColonNext(rest) {
      assert rest == rest[..n] + ":" + rest[n + 1..];
      assert ColonAfter(rest, rest[..n], rest[n + 1..]);
    }
    if ColonAhead(rest) {
      var w, k :| ColonAfter(rest, w, k);
      assert rest == w + (":" + k);
      ColonIsSolid();
      WsLengthOf(w, ":" + k);
    }
  }

  lemma ColonIsSolid()
    ensures !IsWs(':')
  {}

  // ---------- a piece that fits is the token ----------

  lemma Singles(c: char)
    ensures c in "{}[]:," <==> IsPunct(c)
    ensures c in " \t\n\r" <==> IsWs(c)
    ensures AllWordChars([c]) <==> IsWordChar(c)
  {
    assert [c][0] == c;
  }

  lemma WordChars(s: string)
    ensures AllWordChars(s) <==> forall i :: 0 <= i < |s| ==> IsWordChar(s[i])
  {
    hide IsWordChar;
    forall i | 0 <= i < |s|
      ensures s[i] !in "{}[]:, \t\n\r\"" <==> IsWordChar(s[i])
    {
      Singles(s[i]);
      assert [s[i]][0] == s[i];
    }
  }

  lemma SingleToken(p: Piece, rest: string)
    requires IsSingle(p)
    ensures TokenLength(p.text + rest) == 1 && Token(p.text + rest) == p
  {
    var t := p.text + rest;
    Singles(p.text[0]);
    assert t[0] == p.text[0] && t[..1] == p.text;
  }

  lemma QuotedToken(lit: string, rest: string)
    requires IsQuoted(lit)
    ensures TokenLength(lit + rest) == |lit| && Token(lit + rest) == Span(StringClass(rest), lit)
  {
    hide IsBody, BodyLength, StringClass;
    var b := lit[1..|lit| - 1];
    var t := lit + rest;
    assert t[1..] == b + ("\"" + rest);
    BodyEnds(b, rest);
    assert t[..|lit|] == lit && t[|lit|..] == rest;
  }

  lemma OpenToken(p: Piece)
    requires IsOpen(p)
    ensures TokenLength(p.text) == |p.text| && Token(p.text) == p
  {
    hide IsBody, BodyLength;
    var t := p.text;
    NoBodyIsOpen(t[1..]);
    forall k | 0 <= k < |t[1..]| && t[1..][k] == '"'
      ensures !IsBody(t[1..][..k])
    {
      assert t[1..][..k] == t[1..k + 1];
    }
    assert t[..|t|] == t;
  }

  lemma WordPieceIs(p: Piece)
    requires IsWord(p)
    ensures WordPiece(p.text) == p
  {
    hide NumberOk, IsNumber, AllWordChars;
    NumberOkIsNumber(p.text);
    if p.Span? && p.cls == "tok-num" {
      NumberIsWord(p.text);
    }
    assert "false"[0] == 'f' && "true"[0] == 't' && "null"[0] == 'n';
  }

  lemma WordIsToken(p: Piece, rest: string)
    requires IsWord(p) && (rest != "" ==> !AllWordChars([rest[0]]))
    ensures TokenLength(p.text + rest) == |p.text| && Token(p.text + rest) == p
  {
    hide IsNumber, AllWordChars, IsWordChar, WordLength, WordPiece;
    WordChars(p.text);
    if rest != "" {
      Singles(rest[0]);
    }
    WordLengthOf(p.text, rest);
    WordPieceIs(p);
    var t := p.text + rest;
    assert t[0] == p.text[0] && t[..|p.text|] == p.text;
    WordStarts(t[0]);
  }

  lemma WordStarts(c: char)
    ensures IsWordChar(c) <==> c != '"' && !IsPunct(c) && !IsWs(c)
  {}

  lemma FitsIsToken(p: Piece, rest: string)
    requires Fits(p, rest)
    ensures p.text != "" && TokenLength(p.text + rest) == |p.text| && Token(p.text + rest) == p
  {
    hide Token, TokenLength, IsBody, AllWordChars, IsNumber, ColonAhead;
    ColonNextIsAhead(rest);
    if IsSingle(p) {
      SingleToken(p, rest);
    } else if IsWord(p) && (rest != "" ==> !AllWordChars([rest[0]])) {
      WordIsToken(p, rest);
    } else if IsOpen(p) && rest == "" {
      OpenToken(p);
      assert p.text + rest == p.text;
    } else {
      QuotedToken(p.text, rest);
    }
  }

  // ---------- the token fits ----------

  lemma {:induction false} WordRun(t: string)
    ensures forall i :: 0 <= i < WordLength(t) ==> IsWordChar(t[i])
    ensures WordLength(t) < |t| ==> !IsWordChar(t[WordLength(t)])
  {
    if t != "" && IsWordChar(t[0]) {
      hide IsWordChar;
      WordRun(t[1..]);
      assert forall i :: 1 <= i < |t| ==> t[i] == t[1..][i - 1];
    }
  }

  lemma StringFits(t: string)
    requires t != "" && t[0] == '"'
    ensures Fits(Token(t), t[TokenLength(t)..])
  {
    hide IsBody, BodyLength, ColonAhead, ColonNext;
    var n := TokenLength(t);
    if BodyLength(t[1..]).Some? {
      BodyLengthIsBody(t[1..]);
      var lit := t[..n];
      assert lit[1..n - 1] == t[1..][..n - 2];
      assert lit[n - 1] == t[1..][n - 2];
      ColonNextIsAhead(t[n..]);
      assert IsQuoted(lit);
    } else {
      NoBodyIsOpen(t[1..]);
      assert t[..n] == t;
      forall k | 1 <= k < |t| && t[k] == '"'
        ensures !IsBody(t[1..k])
      {
        assert t[1..][k - 1] == t[k] && t[1..][..k - 1] == t[1..k];
      }
      assert IsOpen(Token(t));
    }
  }

  lemma WordFits(t: string)
    requires t != "" && IsWordChar(t[0])
    ensures Fits(Token(t), t[TokenLength(t)..])
  {
    hide IsNumber, NumberOk, AllWordChars, WordLength;
    var n := WordLength(t);
    WordRun(t);
    var word := t[..n];
    WordStarts(t[0]);
    hide IsWordChar;
    assert WordLength(t) > 0 by {
      WordLengthPositive(t);
    }
    WordChars(word);
    NumberOkIsNumber(word);
    assert IsWord(WordPiece(word));
    if n < |t| {
      Singles(t[n]);
      assert t[n..][0] == t[n];
    }
  }

  lemma WordLengthPositive(t: string)
    requires t != "" && IsWordChar(t[0])
    ensures WordLength(t) > 0
  {}

  lemma TokenFits(t: string)
    requires t != ""
    ensures Fits(Token(t), t[TokenLength(t)..])
  {
    if t[0] == '"' {
      StringFits(t);
    } else if IsWordChar(t[0]) {
      WordFits(t);
    } else {
      Singles(t[0]);
      assert t[..1] == [t[0]];
      assert IsSingle(Token(t));
    }
  }

  lemma {:induction false} PiecesAreAReading(t: string)
    ensures IsReading(Pieces(t)) && TextOf(Pieces(t)) == t
  {
    hide Token, TokenLength, Fits;
    PiecesKeepText(t);
    if t != "" {
      var n := TokenLength(t);
      PiecesAreAReading(t[n..]);
      TokenFits(t);
      assert Pieces(t)[1..] == Pieces(t[n..]);
    }
  }

  /** Whatever the text, valid JSON or not, the highlighting is the one reading there is of it:
      pieces that give the text when joined, each of its kind, with the class that kind and what
      follows it ask for. */
  lemma {:induction false} HighlightIsTheReading(t: string, ps: seq<Piece>)
    ensures ps == Pieces(t) <==> IsReading(ps) && TextOf(ps) == t
  {
    hide Token, TokenLength, Fits;
    PiecesAreAReading(t);
    if IsReading(ps) && TextOf(ps) == t && ps != [] {
      var rest := TextOf(ps[1..]);
      FitsIsToken(ps[0], rest);
      HighlightIsTheReading(rest, ps[1..]);
      assert t[|ps[0].text|..] == rest;
      PiecesStep(t, |ps[0].text|);
      assert ps == [ps[0]] + ps[1..];
    }
  }
}
