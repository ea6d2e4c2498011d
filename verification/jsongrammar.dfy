/** JSON texts as RFC 8259 defines them, with every white space choice kept in the tree, and the
    highlighting a reader of the tree would ask for. Texts and highlightings are built in front
    of whatever follows them, so nothing depends on how concatenations are bracketed. */
module JsonGrammar {
  import opened Html
  import opened JsonNumber
  import opened Highlight

  // ---------- the tree ----------

  /** One character of a string literal (section 7). */
  datatype StrChar = Raw(c: char) | Esc(c: char) | Hex(h1: char, h2: char, h3: char, h4: char)

  datatype Value =
    | Null
    | Bool(b: bool)
    | Num(text: string)
    | Str(chars: seq<StrChar>)
    | EmptyArr(ws: string)
    | Arr(elems: Elems)
    | EmptyObj(ws: string)
    | Obj(members: Members)

  /** Array elements with the white space before and after each. */
  datatype Elems =
    | LastElem(before: string, v: Value, after: string)
    | MoreElems(before: string, v: Value, after: string, rest: Elems)

  /** Object members: ws key ws : ws value ws. */
  datatype Members =
    | LastMember(w1: string, key: seq<StrChar>, w2: string, w3: string, v: Value, w4: string)
    | MoreMembers(w1: string, key: seq<StrChar>, w2: string, w3: string, v: Value, w4: string, rest: Members)

  predicate IsHex(c: char) {
    '0' <= c <= '9' || 'a' <= c <= 'f' || 'A' <= c <= 'F'
  }

  predicate OkChar(c: StrChar) {
    match c
    case Raw(c) => c >= ' ' && c != '"' && c != '\\'
    case Esc(c) => c == '"' || c == '\\' || c == '/' || c == 'b' || c == 'f' || c == 'n' || c == 'r' || c == 't'
    case Hex(h1, h2, h3, h4) => IsHex(h1) && IsHex(h2) && IsHex(h3) && IsHex(h4)
  }

  predicate OkChars(cs: seq<StrChar>) {
    forall i :: 0 <= i < |cs| ==> OkChar(cs[i])
  }

  predicate AllWs(w: string) {
    forall i :: 0 <= i < |w| ==> IsWs(w[i])
  }

  ghost predicate Ok(v: Value) {
    match v
    case Null => true
    case Bool(_) => true
    case Num(text) => IsNumber(text)
    case Str(chars) => OkChars(chars)
    case EmptyArr(ws) => AllWs(ws)
    case Arr(elems) => OkElems(elems)
    case EmptyObj(ws) => AllWs(ws)
    case Obj(members) => OkMembers(members)
  }

  ghost predicate OkElems(es: Elems) {
    AllWs(es.before) && Ok(es.v) && AllWs(es.after) && (es.MoreElems? ==> OkElems(es.rest))
  }

  ghost predicate OkMembers(ms: Members) {
    AllWs(ms.w1) && OkChars(ms.key) && AllWs(ms.w2) && AllWs(ms.w3) && Ok(ms.v) && AllWs(ms.w4) &&
    (ms.MoreMembers? ==> OkMembers(ms.rest))
  }

  // ---------- its text ----------

  function CharText(c: StrChar): string {
    match c
    case Raw(c) => [c]
    case Esc(c) => ['\\', c]
    case Hex(h1, h2, h3, h4) => ['\\', 'u', h1, h2, h3, h4]
  }

  function CharsText(cs: seq<StrChar>): string {
    if cs == [] then "" else CharText(cs[0]) + CharsText(cs[1..])
  }

  function Literal(cs: seq<StrChar>): string {
    "\"" + CharsText(cs) + "\""
  }

  /** The text of v followed by k. */
  function ValueText(v: Value, k: string): string {
    match v
    case Null => "null" + k
    case Bool(b) => (if b then "true" else "false") + k
    case Num(text) => text + k
    case Str(chars) => Literal(chars) + k
    case EmptyArr(ws) => "[" + (ws + ("]" + k))
    case Arr(elems) => "[" + ElemsText(elems, "]" + k)
    case EmptyObj(ws) => "{" + (ws + ("}" + k))
    case Obj(members) => "{" + MembersText(members, "}" + k)
  }

  function ElemsText(es: Elems, k: string): string {
    var end := es.after + if es.MoreElems? then "," + ElemsText(es.rest, k) else k;
    es.before + ValueText(es.v, end)
  }

  function MembersText(ms: Members, k: string): string {
    var end := ms.w4 + if ms.MoreMembers? then "," + MembersText(ms.rest, k) else k;
    ms.w1 + (Literal(ms.key) + (ms.w2 + (":" + (ms.w3 + ValueText(ms.v, end)))))
  }

  // ---------- its highlighting ----------

  function WsPieces(w: string, k: seq<Piece>): seq<Piece> {
    if w == "" then k else [Plain([w[0]])] + WsPieces(w[1..], k)
  }

  /** The highlighting of v followed by k: keys, strings, numbers, booleans and null by class,
      structure and white space bare. */
  function ValuePieces(v: Value, k: seq<Piece>): seq<Piece> {
    match v
    case Null => [Span("tok-null", "null")] + k
    case Bool(b) => [Span("tok-bool", if b then "true" else "false")] + k
    case Num(text) => [Span("tok-num", text)] + k
    case Str(chars) => [Span("tok-str", Literal(chars))] + k
    case EmptyArr(ws) => [Plain("[")] + WsPieces(ws, [Plain("]")] + k)
    case Arr(elems) => [Plain("[")] + ElemsPieces(elems, [Plain("]")] + k)
    case EmptyObj(ws) => [Plain("{")] + WsPieces(ws, [Plain("}")] + k)
    case Obj(members) => [Plain("{")] + MembersPieces(members, [Plain("}")] + k)
  }

  function ElemsPieces(es: Elems, k: seq<Piece>): seq<Piece> {
    var end := if es.MoreElems? then [Plain(",")] + ElemsPieces(es.rest, k) else k;
    WsPieces(es.before, ValuePieces(es.v, WsPieces(es.after, end)))
  }

  function MembersPieces(ms: Members, k: seq<Piece>): seq<Piece> {
    var end := if ms.MoreMembers? then [Plain(",")] + MembersPieces(ms.rest, k) else k;
    WsPieces(ms.w1, [Span("tok-key", Literal(ms.key))] +
      WsPieces(ms.w2, [Plain(":")] + WsPieces(ms.w3, ValuePieces(ms.v, WsPieces(ms.w4, end)))))
  }

  // ---------- one token ----------

  lemma PiecesStep(t: string, n: nat)
    requires 0 < n <= |t| && TokenLength(t) == n
    ensures Pieces(t) == [Token(t)] + Pieces(t[n..])
  {
    hide Token, TokenLength;
  }

  lemma PunctStep(c: char, k: string)
    requires IsPunct(c) || IsWs(c)
    ensures Pieces([c] + k) == [Plain([c])] + Pieces(k)
  {
    hide Pieces;
    var t := [c] + k;
    assert t[..1] == [c] && t[1..] == k;
    PiecesStep(t, 1);
  }

  lemma {:induction false} WsSteps(w: string, k: string)
    requires AllWs(w)
    ensures Pieces(w + k) == WsPieces(w, Pieces(k))
  {
    hide Pieces;
    if w == "" {
      assert w + k == k;
    } else {
      assert w + k == [w[0]] + (w[1..] + k);
      PunctStep(w[0], w[1..] + k);
      WsSteps(w[1..], k);
    }
  }

  lemma {:induction false} WsLengthOf(w: string, k: string)
    requires AllWs(w) && (k != "" ==> !IsWs(k[0]))
    ensures WsLength(w + k) == |w|
    ensures ColonNext(w + k) <==> k != "" && k[0] == ':'
  {
    if w == "" {
      assert w + k == k;
    } else {
      assert (w + k)[1..] == w[1..] + k;
      WsLengthOf(w[1..], k);
    }
  }

  lemma {:induction false} WordLengthOf(word: string, k: string)
    requires (forall i :: 0 <= i < |word| ==> IsWordChar(word[i])) && (k != "" ==> !IsWordChar(k[0]))
    ensures WordLength(word + k) == |word|
  {
    if word == "" {
      assert word + k == k;
    } else {
      assert (word + k)[1..] == word[1..] + k;
      WordLengthOf(word[1..], k);
    }
  }

  lemma WordTokenStep(word: string, k: string)
    requires word != "" && (forall i :: 0 <= i < |word| ==> IsWordChar(word[i])) && (k != "" ==> !IsWordChar(k[0]))
    ensures Pieces(word + k) == [WordPiece(word)] + Pieces(k)
  {
    hide Pieces, WordPiece, WordLength;
    var t := word + k;
    WordLengthOf(word, k);
    assert t[0] == word[0] && t[..|word|] == word && t[|word|..] == k;
    PiecesStep(t, |word|);
  }

  lemma BodyRaw(c: char, k: string)
    requires c != '"' && c != '\\'
    ensures BodyLength([c] + k) == var r := BodyLength(k); if r.Some? then r.(value := 1 + r.value) else r
  {
    assert ([c] + k)[1..] == k;
  }

  lemma BodyEscaped(c: char, k: string)
    ensures BodyLength(['\\', c] + k) == var r := BodyLength(k); if r.Some? then r.(value := 2 + r.value) else r
  {
    assert (['\\', c] + k)[2..] == k;
  }

  lemma BodyOfChar(c: StrChar, k: string)
    requires OkChar(c)
    ensures BodyLength(CharText(c) + k) ==
            var r := BodyLength(k); if r.Some? then r.(value := |CharText(c)| + r.value) else r
  {
    hide BodyLength;
    match c
    case Raw(c) =>
      BodyRaw(c, k);
    case Esc(c) =>
      BodyEscaped(c, k);
    case Hex(h1, h2, h3, h4) =>
      assert CharText(c) + k == ['\\', 'u'] + ([h1] + ([h2] + ([h3] + ([h4] + k))));
      BodyRaw(h4, k);
      BodyRaw(h3, [h4] + k);
      BodyRaw(h2, [h3] + ([h4] + k));
      BodyRaw(h1, [h2] + ([h3] + ([h4] + k)));
      BodyEscaped('u', [h1] + ([h2] + ([h3] + ([h4] + k))));
  }

  /** The quote scan ends a literal exactly at its closing quote, whatever it contains. */
  lemma {:induction false} BodyOfChars(cs: seq<StrChar>, k: string)
    requires OkChars(cs)
    ensures BodyLength(CharsText(cs) + ("\"" + k)).Some?
    ensures BodyLength(CharsText(cs) + ("\"" + k)).value == |CharsText(cs)|
  {
    hide CharText, OkChar;
    if cs == [] {
      assert CharsText(cs) + ("\"" + k) == "\"" + k;
    } else {
      hide BodyLength;
      BodyOfChars(cs[1..], k);
      BodyOfChar(cs[0], CharsText(cs[1..]) + ("\"" + k));
      assert CharsText(cs) + ("\"" + k) == CharText(cs[0]) + (CharsText(cs[1..]) + ("\"" + k));
    }
  }

  lemma LiteralStep(cs: seq<StrChar>, k: string)
    requires OkChars(cs)
    ensures Pieces(Literal(cs) + k) == [Span(StringClass(k), Literal(cs))] + Pieces(k)
  {
    hide Pieces, StringClass, BodyLength, CharsText;
    var lit, t := Literal(cs), Literal(cs) + k;
    BodyOfChars(cs, k);
    assert t[0] == '"' && t[1..] == CharsText(cs) + ("\"" + k);
    assert t[..|lit|] == lit && t[|lit|..] == k;
    PiecesStep(t, |lit|);
  }

  // ---------- whole texts ----------

  /** What may follow a value: the end, or a character that ends a word and is not a colon. */
  predicate Follows(k: string) {
    (k != "" ==> !IsWordChar(k[0])) && !ColonNext(k)
  }

  lemma FollowsWs(w: string, c: char, k: string)
    requires AllWs(w) && IsPunct(c) && c != ':'
    ensures Follows(w + ([c] + k))
  {
    hide ColonNext;
    WsLengthOf(w, [c] + k);
    if w == "" {
      assert w + ([c] + k) == [c] + k;
    } else {
      assert (w + ([c] + k))[0] == w[0];
    }
  }

  lemma FollowsWsEnd(w: string)
    requires AllWs(w)
    ensures Follows(w)
  {
    WsLengthOf(w, "");
    assert w + "" == w;
  }

  lemma NumberIsWord(text: string)
    requires IsNumber(text)
    ensures text != "" && WordPiece(text) == Span("tok-num", text)
    ensures forall i :: 0 <= i < |text| ==> IsWordChar(text[i])
  {
    hide IsMinus, IsInt, IsFrac, IsExp, NumberOk;
    NumberOkIsNumber(text);
    var m, i, f, e :| Splits(text, m, i, f, e);
    NumberStart(text, m, i, f, e);
    NumberIsNotALiteral(text);
    forall j | 0 <= j < |text|
      ensures IsWordChar(text[j])
    {
      NumberChars(text, m, i, f, e, j);
    }
  }

  lemma NumberIsNotALiteral(text: string)
    requires text != "" && (text[0] == '-' || '0' <= text[0] <= '9')
    ensures text != "true" && text != "false" && text != "null"
  {
    assert "true"[0] == 't' && "false"[0] == 'f' && "null"[0] == 'n';
  }

  predicate NumberChar(c: char) {
    '0' <= c <= '9' || c == '-' || c == '+' || c == '.' || c == 'e' || c == 'E'
  }

  lemma NumberChars(text: string, m: string, i: string, f: string, e: string, j: nat)
    requires Splits(text, m, i, f, e) && j < |text|
    ensures NumberChar(text[j])
  {
    assert AllNumberChars(m) && AllNumberChars(i);
    FracChars(f);
    ExpChars(e);
  }

  predicate AllNumberChars(s: string) {
    forall j :: 0 <= j < |s| ==> NumberChar(s[j])
  }

  lemma FracChars(f: string)
    requires IsFrac(f)
    ensures AllNumberChars(f)
  {
    assert forall j :: 1 <= j < |f| ==> f[j] == f[1..][j - 1];
  }

  lemma ExpChars(e: string)
    requires IsExp(e)
    ensures AllNumberChars(e)
  {
    assert forall j :: 1 <= j < |e| ==> e[j] == e[1..][j - 1];
    assert forall j :: 2 <= j < |e| ==> e[j] == e[2..][j - 2];
  }

  lemma NumberStart(text: string, m: string, i: string, f: string, e: string)
    requires Splits(text, m, i, f, e)
    ensures text != "" && (text[0] == '-' || '0' <= text[0] <= '9')
  {
    assert |m + i| >= 1;
    assert text[0] == (m + i)[0];
  }

  lemma ScalarSteps(v: Value, k: string)
    requires Ok(v) && Follows(k) && (v.Null? || v.Bool? || v.Num? || v.Str?)
    ensures Pieces(ValueText(v, k)) == ValuePieces(v, Pieces(k))
  {
    hide Pieces, IsNumber;
    match v
    case Null =>
      WordTokenStep("null", k);
    case Bool(b) =>
      WordTokenStep(if b then "true" else "false", k);
    case Num(text) =>
      NumberIsWord(text);
      WordTokenStep(text, k);
    case Str(chars) =>
      LiteralStep(chars, k);
  }

  /** Tokenizing the text of a value, in front of anything that may follow it, gives the
      highlighting its tree asks for. */
  lemma {:induction false} ValueSteps(v: Value, k: string)
    requires Ok(v) && Follows(k)
    ensures Pieces(ValueText(v, k)) == ValuePieces(v, Pieces(k))
    decreases v, 0
  {
    hide Pieces, Follows, WsPieces;
    match v
    case EmptyArr(ws) =>
      PunctStep('[', ws + ("]" + k));
      WsSteps(ws, "]" + k);
      PunctStep(']', k);
    case Arr(elems) =>
      PunctStep('[', ElemsText(elems, "]" + k));
      ElemsSteps(elems, ']', k);
      PunctStep(']', k);
    case EmptyObj(ws) =>
      PunctStep('{', ws + ("}" + k));
      WsSteps(ws, "}" + k);
      PunctStep('}', k);
    case Obj(members) =>
      PunctStep('{', MembersText(members, "}" + k));
      MembersSteps(members, '}', k);
      PunctStep('}', k);
    case _ =>
      ScalarSteps(v, k);
  }

  lemma {:induction false} ElemsSteps(es: Elems, c: char, k: string)
    requires OkElems(es) && IsPunct(c) && c != ':'
    ensures Pieces(ElemsText(es, [c] + k)) == ElemsPieces(es, Pieces([c] + k))
    decreases es, 0
  {
    hide Pieces, Follows, WsPieces, ValueText, ValuePieces;
    var c', k' := c, k;
    if es.MoreElems? {
      c', k' := ',', ElemsText(es.rest, [c] + k);
      PunctStep(',', k');
      ElemsSteps(es.rest, c, k);
    }
    FollowsWs(es.after, c', k');
    WsSteps(es.after, [c'] + k');
    ValueSteps(es.v, es.after + ([c'] + k'));
    WsSteps(es.before, ValueText(es.v, es.after + ([c'] + k')));
  }

  lemma {:induction false} MembersSteps(ms: Members, c: char, k: string)
    requires OkMembers(ms) && IsPunct(c) && c != ':'
    ensures Pieces(MembersText(ms, [c] + k)) == MembersPieces(ms, Pieces([c] + k))
    decreases ms, 0
  {
    hide Pieces, Follows, WsPieces, ValueText, ValuePieces, ColonNext, Literal;
    var c', k' := c, k;
    if ms.MoreMembers? {
      c', k' := ',', MembersText(ms.rest, [c] + k);
      PunctStep(',', k');
      MembersSteps(ms.rest, c, k);
    }
    FollowsWs(ms.w4, c', k');
    WsSteps(ms.w4, [c'] + k');
    var end := ms.w4 + ([c'] + k');
    ValueSteps(ms.v, end);
    WsSteps(ms.w3, ValueText(ms.v, end));
    var colon := ":" + (ms.w3 + ValueText(ms.v, end));
    PunctStep(':', ms.w3 + ValueText(ms.v, end));
    WsSteps(ms.w2, colon);
    WsLengthOf(ms.w2, colon);
    LiteralStep(ms.key, ms.w2 + colon);
    WsSteps(ms.w1, Literal(ms.key) + (ms.w2 + colon));
  }

  /** Every JSON text (ws value ws) is highlighted as its syntax tree directs. */
  lemma HighlightFollowsTheTree(w1: string, v: Value, w2: string)
    requires AllWs(w1) && Ok(v) && AllWs(w2)
    ensures Pieces(w1 + ValueText(v, w2)) == WsPieces(w1, ValuePieces(v, WsPieces(w2, [])))
  {
    hide Pieces, ValueText, ValuePieces, WsPieces;
    FollowsWsEnd(w2);
    WsSteps(w1, ValueText(v, w2));
    ValueSteps(v, w2);
    WsSteps(w2, "");
    assert w2 + "" == w2;
    PiecesOfNothing();
  }

  lemma PiecesOfNothing()
    ensures Pieces("") == []
  {}
}
